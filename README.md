# A verified model of a small static blog's sequence logic

This blog is a React single-page site. Under its templates sits a small layer of list logic,
and that layer is what this project models and proves things about:

- **Content index** (`src/data/blogPosts.js`). A fixed collection of posts keyed by id, with
  these read-only queries:
  - all posts, newest first;
  - lookup by id;
  - filter by exact tag;
  - the distinct tags;
  - the N most recent posts;
  - case-insensitive search over title, summary and tags.
- **Archive page** (`src/pages/Archive.jsx`):
  - the list of distinct years;
  - the year filter;
  - grouping posts into `YYYY-MM` month buckets, each sorted newest first;
  - the month keys sorted in descending string order.
- **Home page** (`src/pages/Home.jsx`). The page state is a class `Home.HomePage` with the
  fields `searchText`, `displayPosts`, `searchHistory` and `sortOrder`. Its handlers are:
  - search, which updates the most-recent-first history (at most ten entries, no repeats)
    and the shown list;
  - typing in the search box;
  - picking a history entry or clicking a tag;
  - clearing the history;
  - the newest/oldest sort toggle.
- **Post page** (`src/pages/BlogPost.jsx`):
  - the like button, as a class `BlogPostPage.PostPage` holding `isLiked` and `likeCount`;
  - the Markdown `code` renderer, which takes the language from the class name and removes
    one trailing newline from the block text.

Modules:

| file | module | contents |
|---|---|---|
| `wrappers.dfy` | `Wrappers` | `Option` |
| `text.dfy` | `Text` | ASCII lower-casing, substring test, whitespace trimming, decimal rendering, two-digit padding, code-point string order |
| `seqs.dfy` | `Seqs` | subsequences, filtering, first-occurrence de-duplication, insertion sort by a strict order |
| `posts.dfy` | `Posts` | dates, posts, the stable sort by date in either direction |
| `blog_posts.dfy` | `BlogPosts` | the content-index queries |
| `archive.dfy` | `Archive` | years, year filter, month grouping, month order |
| `home.dfy` | `Home` | search history and the home page class |
| `blog_post_page.dfy` | `BlogPostPage` | like button and code renderer |
| `fixtures.dfy` | `Fixtures` | the four shipped posts and scenario lemmas over them |

Modelling choices:

- **Store.** The collection is a `seq<Post>` in key order. `Object.values` lists integer keys
  in ascending order, so `ValidStore` asks for strictly ascending, non-negative ids. The four
  shipped posts use the keys 1 to 4, and these equal their ids.
- **Dates.** A date is an already-parsed `(year, month, day)` triple, compared
  lexicographically.
- **Sorting.** `Array.prototype.sort` is stable, so sorting is a stable insertion sort. Its
  contract says three things: the result is a permutation; it is ordered; and the posts that
  share a date keep their input order. `Posts.StableSortUnique` shows that these three
  properties pin the result down.
- **Grouping.**
  - The accumulator object of `groupPostsByDate` is a map from key to bucket plus the list of
    keys in insertion order. That order is what `Object.keys` gives for non-numeric keys.
  - The `reduce` and the `forEach` sort are the two loops of `Archive.PushByKey` and
    `Archive.SortBuckets`.
  - Both are written over any key function, and `Archive.GroupPostsByDate` applies them with
    the month key.
- **Month-key order.** `localeCompare` is modelled as code-point order. On strings made of
  ASCII digits and `-`, which is all a month key holds, the two orders agree.
- **Blank queries.** `value.trim()` is truthy exactly when the query has a character outside
  JavaScript's whitespace and line-terminator set (`Text.TrimEmptyIffBlank`).
- **Negative slice limits.** `getRecentPosts` passes its limit straight to `slice`, so a
  negative limit drops that many posts from the end. The model keeps this.
- **Class-name match.** `/language-(\w+)/` is modelled as the regular-expression engine runs it:
  - the match is at the leftmost position where `language-` is followed by a word character;
  - that position is not always the first `language-` in the class name
    (`BlogPostPage.LanguageSkipsBarePrefix`);
  - the language is the whole run of word characters after the match.

## Model

| member | source | states |
|---|---|---|
| `Text.LowerChar` | src/data/blogPosts.js:79 | a letter `A`-`Z` maps to its lower-case form; every other character is unchanged |
| `Text.Lower` | src/data/blogPosts.js:79 | `toLowerCase` on the query, titles, summaries and tags; no contract of its own, specified by `Text.LowerProperties` and `Text.LowerAvoids` |
| `Text.LowerProperties` | src/data/blogPosts.js:79-83 | lower-casing keeps the length, leaves no upper-case ASCII letter, and is idempotent |
| `Text.LowerAvoids` | src/data/blogPosts.js:79-83 | a lower-case letter missing from a text in both cases is missing from its lower-cased form |
| `Text.MissingCharNotContained` | src/data/blogPosts.js:81-83 | a text lacking some character of the query does not include the query |
| `Text.Contains` | src/data/blogPosts.js:81-83 | `includes`: some offset of the text starts with the query; no contract of its own, specified by `Text.ContainsAt` and `Text.MissingCharNotContained` |
| `Text.ContainsAt` | src/data/blogPosts.js:81-83 | a query found at a given offset is included |
| `Text.TrimStart` | src/pages/Home.jsx:97 | the result is a suffix of the input that starts with a non-whitespace character or is empty, and everything removed is whitespace |
| `Text.TrimEnd` | src/pages/Home.jsx:97 | the result is a prefix of the input that ends with a non-whitespace character or is empty, and everything removed is whitespace |
| `Text.Trim` | src/pages/Home.jsx:97 | `trim()`, both ends; no contract of its own, specified by `Text.TrimStart`, `Text.TrimEnd` and `Text.TrimEmptyIffBlank` |
| `Text.TrimEmptyIffBlank` | src/pages/Home.jsx:97 | the trimmed query is empty exactly when every character is whitespace |
| `Text.DigitChar` | src/pages/Archive.jsx:27 | a digit value maps to its character `0`-`9` |
| `Text.NatToString` | src/pages/Archive.jsx:27 | the decimal rendering of a number is a non-empty digit string, of one digit exactly when the number is below 10 |
| `Text.DecimalRoundTrip` | src/pages/Archive.jsx:27 | reading the decimal rendering back gives the number |
| `Text.NatToStringInjective` | src/pages/Archive.jsx:27 | different numbers render differently |
| `Text.FourDigits` | src/pages/Archive.jsx:27 | a year from 1000 to 9999 renders as exactly four digits |
| `Text.TwoDigitsAtLeast` | src/pages/Archive.jsx:27 | a number of at least 10 renders with two or more digits |
| `Text.PadStart2` | src/pages/Archive.jsx:27 | `padStart(2, '0')`: the result has length two or the input's length if longer, ends with the input, and every character added in front is `0` |
| `Text.StrLessConcat` | src/pages/Archive.jsx:55 | when the first parts have equal lengths, two concatenations compare by their first parts, then by the rest |
| `Text.NumericOrder` | src/pages/Archive.jsx:55 | renderings of the same length compare as strings the way the numbers compare |
| `Text.StrLessTotal` | src/pages/Archive.jsx:55 | string order is total on distinct strings and irreflexive |
| `Text.StrLessTransitive` | src/pages/Archive.jsx:55 | string order is transitive |
| `Seqs.Filter` | src/data/blogPosts.js:38 | `filter` keeps exactly the elements that pass, as a subsequence in their order |
| `Seqs.FilterMultiset` | src/data/blogPosts.js:38 | the count of each element in a filtered list is its count in the input when it passes, and zero when it does not |
| `Seqs.FilterAllPass` | src/pages/Home.jsx:99 | filtering a list whose elements all pass leaves it unchanged |
| `Seqs.FilterAppend` | src/data/blogPosts.js:38 | filtering a list with one more element at the end adds that element exactly when it passes |
| `Seqs.SubseqNoDup` | src/data/blogPosts.js:80-84 | a subsequence of a list without repeats has no repeats |
| `Seqs.SubseqPrefix` | src/pages/Home.jsx:99 | a prefix of a subsequence is a subsequence |
| `Seqs.SubseqUnique` | src/data/blogPosts.js:38 | two subsequences of a list without repeats that hold the same elements are equal |
| `Seqs.Dedup` | src/data/blogPosts.js:42-59 | first-occurrence de-duplication; no contract of its own, specified by `Seqs.DedupProperties` |
| `Seqs.DedupProperties` | src/data/blogPosts.js:42-59 | first-occurrence de-duplication (what `Set` insertion order gives) has no repeats, holds every element of its input, and lists them in first-occurrence order |
| `Seqs.DedupMember` | src/data/blogPosts.js:59 | every de-duplicated element comes from the input |
| `Seqs.FilterFirstOccurrenceOrder` | src/data/blogPosts.js:50-54 | a list in first-occurrence order of a filtered list is in first-occurrence order of the unfiltered one |
| `Seqs.PermutationNoDup` | src/pages/Archive.jsx:19-21 | a permutation of a list without repeats has no repeats |
| `Seqs.SortWith` | src/pages/Archive.jsx:21 | insertion sort by a comparison: keeps the length; the rest is stated by `Seqs.SortWithCorrect` |
| `Seqs.SortWithCorrect` | src/pages/Archive.jsx:21 | sorting a list without repeats by a strict total order gives a permutation of it in which every earlier element comes before every later one |
| `Posts.InsertMultiset` | src/data/blogPosts.js:25-26 | inserting adds the post to the multiset and nothing else |
| `Posts.InsertSorted` | src/data/blogPosts.js:25-26 | inserting into a list sorted in an order keeps it sorted in that order |
| `Posts.InsertOnDate` | src/data/blogPosts.js:25-26 | the inserted post comes before the posts that share its date, and the other dates are untouched |
| `Posts.SortByDate` | src/data/blogPosts.js:25-26 | the stable date sort behind `sort((a, b) => new Date(b.date) - new Date(a.date))`: keeps the length; the rest is stated by `Posts.SortByDateCorrect` |
| `Posts.SortByDateCorrect` | src/data/blogPosts.js:23-27 | the date sort, in either direction, is a permutation, is sorted in that direction, and keeps the input order of posts that share a date |
| `Posts.StableSortUnique` | src/data/blogPosts.js:25-26 | two lists sorted the same way with the same posts on each date, in the same order, are equal |
| `Posts.SortSortedIsIdentity` | src/pages/Home.jsx:147-151 | sorting a list already sorted in that order changes nothing |
| `Posts.ResortForgets` | src/pages/Home.jsx:147-151 | sorting a list that was already sorted gives the same result as sorting the original list |
| `Posts.SubseqSorted` | src/data/blogPosts.js:80-84 | a subsequence of a sorted list is sorted |
| `BlogPosts.ValidStoreNoDup` | src/data/blogPosts.js:8-13 | a store keyed by distinct ids holds no post twice |
| `BlogPosts.GetAllPosts` | src/data/blogPosts.js:23-27 | the store newest first; no contract of its own, specified by `BlogPosts.GetAllPostsCorrect` and `BlogPosts.GetAllPostsMembers` |
| `BlogPosts.GetAllPostsCorrect` | src/data/blogPosts.js:23-27 | `getAllPosts` is a permutation of the store, no post is dated before the next one, and posts sharing a date keep their key order |
| `BlogPosts.GetAllPostsMembers` | src/data/blogPosts.js:23-27 | `getAllPosts` holds exactly the stored posts, each once |
| `BlogPosts.GetPost` | src/data/blogPosts.js:29-31 | `getPost(id)` finds a post exactly when some stored entry has that id, and then it is that stored post; otherwise the result is null |
| `BlogPosts.GetPostStored` | src/data/blogPosts.js:29-31 | looking up a stored post's id returns that post |
| `BlogPosts.GetPostsByTag` | src/data/blogPosts.js:33-39 | `getPostsByTag(t)` is a subsequence of `getAllPosts()` holding exactly the posts whose tags include `t`, compared exactly |
| `BlogPosts.FlatMembers` | src/data/blogPosts.js:49-57 | walking every post's tags visits exactly the tags of some post |
| `BlogPosts.DistinctTagsStep` | src/data/blogPosts.js:52-54 | one more tag extends the distinct tags by that tag when it is non-empty and new, and otherwise leaves them as they were |
| `BlogPosts.GetAllTags` | src/data/blogPosts.js:41-60 | the nested loops over `getAllPosts()` yield the distinct non-empty tags in first-occurrence order |
| `BlogPosts.DistinctTags` | src/data/blogPosts.js:41-60 | the value `getAllTags` returns, as a function of the posts; no contract of its own, specified by `BlogPosts.DistinctTagsProperties` |
| `BlogPosts.DistinctTagsProperties` | src/data/blogPosts.js:41-60 | the tags have no repeats and no empty entry, include every non-empty tag of every post, and come in first-occurrence order |
| `BlogPosts.GetRecentPosts` | src/data/blogPosts.js:62-69 | `getRecentPosts(n)` is a prefix of `getAllPosts()` of length `min(n, size)`; a negative `n` drops that many posts from the end |
| `BlogPosts.RecentPostsAreNewest` | src/data/blogPosts.js:62-69 | no recent post is older than a post left out |
| `BlogPosts.Matches` | src/data/blogPosts.js:80-84 | the search filter: title, summary or a tag includes the lower-cased query; no contract of its own, specified by `BlogPosts.AnyTagContainsIff` and `BlogPosts.SearchPosts` |
| `BlogPosts.AnyTagContainsIff` | src/data/blogPosts.js:83 | `some` over the tags holds exactly when one lower-cased tag includes the query |
| `BlogPosts.SearchPosts` | src/data/blogPosts.js:71-85 | an empty query gives `getAllPosts()`; otherwise the result is a subsequence of `getAllPosts()` holding exactly the posts whose lower-cased title, summary or some tag includes the lower-cased query |
| `BlogPosts.SearchPostsNoDup` | src/data/blogPosts.js:79-84 | search results hold no post twice |
| `BlogPosts.SearchPostsNewestFirst` | src/data/blogPosts.js:79-84 | search results are newest first |
| `Archive.YearList` | src/pages/Archive.jsx:19-20 | the mapped list holds each post's year, position by position |
| `Archive.Years` | src/pages/Archive.jsx:19-21 | the year list; no contract of its own, specified by `Archive.YearsCorrect` |
| `Archive.YearsCorrect` | src/pages/Archive.jsx:19-21 | the years are exactly the years of some post, each once, strictly descending |
| `Archive.FilterPosts` | src/pages/Archive.jsx:45-52 | `'all'` gives every post; a year gives a subsequence holding exactly the posts of that year |
| `Archive.TwoDigitMonth` | src/pages/Archive.jsx:27 | a month below 100, padded, is its tens digit followed by its units digit |
| `Archive.SingleCharOrder` | src/pages/Archive.jsx:55 | one-character strings compare as their characters do |
| `Archive.DigitPairOrder` | src/pages/Archive.jsx:27 | two-digit numbers compare, and are equal, digit by digit |
| `Archive.DigitStringOrder` | src/pages/Archive.jsx:27 | two-character digit strings compare, and are equal, as their numbers do |
| `Archive.TwoDigitOrder` | src/pages/Archive.jsx:27 | padded months compare as strings, and are equal, as the month numbers do |
| `Archive.KeyCompare` | src/pages/Archive.jsx:55 | for parts of equal lengths, `a-b` keys are equal when both parts are, and compare by the first part and then the second |
| `Archive.MonthKey` | src/pages/Archive.jsx:26-27 | the `YYYY-MM` key; no contract of its own, specified by `Archive.TwoDigitMonth` and `Archive.MonthKeyOrder` |
| `Archive.MonthKeyOrder` | src/pages/Archive.jsx:26-27 | for four-digit years, month keys are equal exactly for the same year and month, and compare as strings the way (year, month) pairs compare |
| `Archive.KeyList` | src/pages/Archive.jsx:26-27 | the keys of the posts, position by position |
| `Archive.InGroupAppend` | src/pages/Archive.jsx:29-32 | one more post is pushed onto its own bucket only |
| `Archive.InGroup` | src/pages/Archive.jsx:25-34 | the bucket of one key, as a function of the posts; no contract of its own, specified by `Archive.InGroupMembers` |
| `Archive.InGroupMembers` | src/pages/Archive.jsx:24-34 | a bucket holds exactly the posts with its key, and is empty exactly when no post has that key |
| `Archive.GroupKeys` | src/pages/Archive.jsx:29-31 | the bucket keys in insertion order, as a function of the posts; no contract of its own, specified by `Archive.GroupKeysMembers` |
| `Archive.GroupKeysMembers` | src/pages/Archive.jsx:29-31 | the bucket keys are exactly the keys of some post, each once |
| `Archive.GroupKeysAppend` | src/pages/Archive.jsx:29-31 | one more post adds its key at the end when the key is new, and otherwise adds nothing |
| `Archive.GroupStep` | src/pages/Archive.jsx:25-34 | one `reduce` step: a new key opens an empty bucket, and the post goes onto its own bucket |
| `Archive.PushStep` | src/pages/Archive.jsx:29-32 | one `reduce` step on buckets that match the posts so far gives the buckets and keys of the posts with one more appended |
| `Archive.PushByKey` | src/pages/Archive.jsx:25-34 | the `reduce` yields the keys in first-occurrence order and, for each key, the posts with that key in input order |
| `Archive.SortBuckets` | src/pages/Archive.jsx:37-39 | the `forEach` sorts every bucket newest first and keeps the keys |
| `Archive.GroupPostsByDate` | src/pages/Archive.jsx:24-42 | the result has a bucket for each month of some post, holding that month's posts sorted newest first |
| `Archive.BucketSizesAppend` | src/pages/Archive.jsx:29-32 | one more post adds one to the total size when its key is listed, and nothing otherwise |
| `Archive.GroupingPartition` | src/pages/Archive.jsx:24-34 | every post is in the bucket of its own key and in no other, and no bucket is empty |
| `Archive.GroupingCount` | src/pages/Archive.jsx:78 | the bucket sizes add up to the number of posts counted on the page |
| `Archive.BucketCorrect` | src/pages/Archive.jsx:36-39 | a sorted bucket is a permutation of what was pushed, newest first, keeps push order on equal dates, and holds only posts of its key |
| `Archive.KeyAfterOrder` | src/pages/Archive.jsx:55 | the comparator `b.localeCompare(a)` is a strict total order |
| `Archive.SortedMonths` | src/pages/Archive.jsx:55 | `Object.keys(groupedPosts).sort((a, b) => b.localeCompare(a))`, with `localeCompare` read as code-point order; no contract of its own, specified by `Archive.SortedMonthsCorrect` |
| `Archive.SortedMonthsCorrect` | src/pages/Archive.jsx:55 | the sorted keys are the bucket keys, each once, in strictly descending string order |
| `Archive.SortedMonthsChronological` | src/pages/Archive.jsx:54-55 | for four-digit years, a month listed later is an earlier calendar month |
| `Home.WithoutValue` | src/pages/Home.jsx:99 | the filter drops every exact copy of the query and keeps the other entries in order |
| `Home.NextHistory` | src/pages/Home.jsx:99 | the history update; no contract of its own, specified by `Home.NextHistoryHead` and `Home.NextHistoryRest` |
| `Home.NextHistoryHead` | src/pages/Home.jsx:97-99 | the new history starts with the query, holds it nowhere else, and has at most ten entries |
| `Home.NextHistoryRest` | src/pages/Home.jsx:99 | the other entries are the previous ones of the history, minus copies of the query, in their order, cut at ten; an entry is lost only to the query or to the cut |
| `Home.NextHistoryNoDup` | src/pages/Home.jsx:99 | a history without repeats stays without repeats |
| `Home.NextHistoryIdempotent` | src/pages/Home.jsx:99 | searching the same query twice leaves the history as after the first search |
| `Home.NextHistoryHeadAgain` | src/pages/Home.jsx:99 | searching the head of a repeat-free history of at most ten entries leaves the history unchanged |
| `Home.NextHistoryKeepsShape` | src/pages/Home.jsx:99 | a well-shaped history (no repeats, at most ten entries) keeps that shape after a search, and searching its head leaves it unchanged |
| `Home.HomePage.constructor` | src/pages/Home.jsx:59-65 | the page starts with an empty box, every post newest first, the saved history or none, and newest-first order; a saved history without repeats and of at most ten entries gives a well-shaped history |
| `Home.HomePage.HandleSearch` | src/pages/Home.jsx:96-108 | a blank query keeps the history and shows every post; otherwise the untrimmed query heads the history and its results are shown; the sort order is not touched; a well-shaped history stays well-shaped, and searching its head leaves it unchanged |
| `Home.HomePage.HandleSearchInOrder` | src/pages/Home.jsx:96-108 | the corrected handler: the same history update, with the shown list sorted in the current order; under newest-first it shows what `handleSearch` shows; a well-shaped history stays well-shaped |
| `Home.HomePage.HandleSearchChange` | src/pages/Home.jsx:111-113 | typing only changes the search box |
| `Home.HomePage.SelectQuery` | src/pages/Home.jsx:131-134 | picking a history entry, or a tag (lines 295-298), fills the box and searches it; a well-shaped history stays well-shaped, and picking its head leaves it unchanged |
| `Home.HomePage.ClearHistory` | src/pages/Home.jsx:135-138 | clearing empties the history, which is then well-shaped, and changes nothing else |
| `Home.HomePage.ToggleSort` | src/pages/Home.jsx:144-153 | the toggle flips the order and shows the previous list re-sorted in the new order, which keeps the list ordered |
| `Home.ToggleSortCorrect` | src/pages/Home.jsx:147-152 | the re-sorted list is a permutation of the shown one, in the new order, with ties in their previous order |
| `Home.ToggleTwice` | src/pages/Home.jsx:144-153 | two toggles give the first toggle's input re-sorted in the original order, and give back a list that was in that order |
| `BlogPostPage.InitialLikes` | src/pages/BlogPost.jsx:25 | the starting count is the post's `likes`, or 0 when there is no post or no count |
| `BlogPostPage.Press` | src/pages/BlogPost.jsx:44-52 | a press flips `liked` and adds 1 when it becomes liked, or subtracts 1 when it stops being liked |
| `BlogPostPage.PressKeepsCount` | src/pages/BlogPost.jsx:44-52 | a press keeps count = initial + (liked ? 1 : 0), so the count stays within one of the initial count |
| `BlogPostPage.PressTwice` | src/pages/BlogPost.jsx:44-52 | two presses restore the state |
| `BlogPostPage.PressTimesCount` | src/pages/BlogPost.jsx:44-52 | after n presses from the start, the post is liked exactly when n is odd, and the count follows the invariant |
| `BlogPostPage.PostPage.constructor` | src/pages/BlogPost.jsx:22-25 | the page looks the post up and starts not liked with the initial count |
| `BlogPostPage.PostPage.HandleLike` | src/pages/BlogPost.jsx:44-52 | `handleLike` is one press and keeps the count invariant |
| `BlogPostPage.WordRunEnd` | src/pages/BlogPost.jsx:132 | `\w+` takes the longest run of word characters |
| `BlogPostPage.FirstMatch` | src/pages/BlogPost.jsx:132 | the search finds the leftmost match position, and no position when there is none |
| `BlogPostPage.Language` | src/pages/BlogPost.jsx:132 | a language is found exactly when the class name has a match, with a missing class name read as empty |
| `BlogPostPage.LanguageShape` | src/pages/BlogPost.jsx:132 | the language is a non-empty run of word characters right after `language-` at the leftmost match, and no word character follows it |
| `BlogPostPage.StripTrailingNewline` | src/pages/BlogPost.jsx:135 | at most one final newline is removed and nothing else changes |
| `BlogPostPage.StripOnlyOne` | src/pages/BlogPost.jsx:135 | a text ending in two newlines keeps one |
| `BlogPostPage.RenderCode` | src/pages/BlogPost.jsx:131-142 | a block is highlighted exactly when it is not inline and has a language, with its text stripped of one newline; otherwise class and children pass through |
| `BlogPostPage.LanguageOfPlainClass` | src/pages/BlogPost.jsx:132 | `language-js` gives `js` |
| `BlogPostPage.LanguageStopsAtNonWord` | src/pages/BlogPost.jsx:132 | `language-c++` gives `c` |
| `BlogPostPage.LanguageSkipsBarePrefix` | src/pages/BlogPost.jsx:132 | in `language- language-ts` the bare first prefix does not match and the language is `ts` |
| `Fixtures.StoreIsValid` | src/data/blogPosts.js:8-13 | the shipped store, keyed 1 to 4 by the posts' own ids, is well formed |
| `Fixtures.AllPostsOrder` | src/data/blogPosts.js:23-27 | with the dates 2024-03-20, 2024-03-19, 2024-03-21 and 2024-11-12, `getAllPosts` lists the ids 4, 3, 1, 2 |
| `Fixtures.LookupScenarios` | src/data/blogPosts.js:29-31 | id 999 finds nothing; id 2 finds the TypeScript post |
| `Fixtures.LacksY` | src/data/blogPosts.js:79-84 | a text with neither `y` nor `Y` does not match the query `typescript` |
| `Fixtures.ReactTailwindLacksY` | src/data/posts/react-tailwind-modern-website.js:2-4 | post 1 does not match `TypeScript` |
| `Fixtures.ScreenAdaptationLacksY` | src/data/posts/frontend-screen-adaptation.js:2-4 | post 3 does not match `TypeScript` |
| `Fixtures.CalendarGuideLacksY` | src/data/posts/react-toast-ui-calendar-guide.js:2-4 | post 4 does not match `TypeScript` |
| `Fixtures.TypeScriptMatches` | src/data/posts/typescript-advanced-features.js:2-4 | post 2 matches `TypeScript` |
| `Fixtures.SearchTypeScript` | src/data/blogPosts.js:71-85 | searching `TypeScript` returns only post 2 |
| `Fixtures.TagReact` | src/data/blogPosts.js:33-39 | the tag `React` gives posts 4 and 1, newest first |
| `Fixtures.RecentDefault` | src/data/blogPosts.js:62-69 | the default limit of 5 returns all four posts; a limit of 2 returns posts 4 and 3 |
| `Fixtures.FixtureMonths` | src/pages/Archive.jsx:27 | the shipped posts fall in the months `2024-11` and `2024-03` |
| `Fixtures.YearsScenario` | src/pages/Archive.jsx:19-21 | the years list of the shipped posts is 2024 alone |
| `Fixtures.KeysScenario` | src/pages/Archive.jsx:25-34 | grouping the shipped posts opens `2024-11` and then `2024-03` |
| `Fixtures.MonthsScenario` | src/pages/Archive.jsx:55 | the sorted months are `2024-11`, then `2024-03` |
| `Fixtures.BlankSearchAfterToggle` | src/pages/Home.jsx:106 | after one toggle the order is oldest first, yet the list a blank search shows is not in that order |
| `Fixtures.ToggleThenBlankSearch` | src/pages/Home.jsx:96-108 | on the page itself, opened with nothing saved: one press of the sort button and an empty search leave the order oldest first and the list newest first, not in that order |

## Left out

- The `avatar` assignment loop (`src/data/blogPosts.js:16-18`): it stores an image import, and no query reads it, so posts carry no avatar field.
- Persisting the history in `localStorage` through `JSON.stringify`/`JSON.parse` (`src/pages/Home.jsx:62-63, 100, 137`): this is browser I/O. The constructor takes the saved history as a parameter (`None` when nothing was saved), and the handlers do not write it back.
- `JSON.parse` of a saved value that is not an array of strings: the saved history is assumed to be one.
- JavaScript `Date` parsing and time zones: dates are already-parsed triples, and invalid dates are outside the model.
- Unicode case mapping: `Text.Lower` maps only the ASCII letters. `toLowerCase` on other scripts is outside the model.
- Id coercion in `getPost`: the route id is a string, and it indexes an object whose prototype keys would also resolve. Ids are modelled as integer keys.
- The `|| []` and `Array.isArray` fallbacks: the queries always return arrays, so these branches never run.
- `String(children)` on non-string children: children are modelled as strings.
- React's batching of state updates in `handleLike`: each handler is one atomic state change.
- Rendering, routing, animation and the other page components; the Prism highlighter behind `CodeBlock`; the timer-driven comment list; the scroll listener; the clipboard; the `message.success` toasts shown on a like (`src/pages/BlogPost.jsx:47`) and on copying the link.
- `Archive.MonthKeyOrder`: proved only for years 1000 to 9999 and months below 100. The year is not padded, so outside that range string order and calendar order differ (the year 999 sorts after 1000).
- `Archive.SortedMonthsChronological`: stated under the same year range as `Archive.MonthKeyOrder`.

## Findings

| source | as written | input that shows it | evidently intended | confidence | as-written member | corrected member |
|---|---|---|---|---|---|---|
| src/pages/Home.jsx:96-108 | `handleSearch` shows `getAllPosts()` or `searchPosts(value)`, which are both newest first, whatever `sortOrder` says | press the sort button once (order becomes oldest first), then submit a blank query: the four shipped posts show newest first while the button shows the oldest-first state | the shown list follows the current `sortOrder`, as the toggle at lines 144-153 keeps it | medium, not executed | `Fixtures.ToggleThenBlankSearch` | `Home.HomePage.HandleSearchInOrder` |
