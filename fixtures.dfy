/** The four posts of the blog, with the fields the queries read, and the concrete
    scenarios they give.

    Long titles and summaries are written as concatenations of shorter literals; the value
    is the same string. */
module Fixtures {
  import opened Wrappers
  import opened Text
  import opened Seqs
  import opened Posts
  import opened BlogPosts
  import opened Archive
  import opened Home

  const ReactTailwindTitle := "使用 React 和 Tailwind 构建现代化网站"
  const ReactTailwindSummary1 := "本文详细介绍了如何使用 React 和 Tailwind CSS "
  const ReactTailwindSummary2 := "构建一个现代化的响应式网站，包括项目搭建、组件开发、"
  const ReactTailwindSummary3 := "样式配置等全方位内容..."
  const ReactTailwindSummary := ReactTailwindSummary1 + ReactTailwindSummary2 + ReactTailwindSummary3
  const ReactTailwindPost := Post(
    1, ReactTailwindTitle, ReactTailwindSummary, Date(2024, 3, 20),
    ["React", "Tailwind", "前端开发"], Some(42))

  const TypeScriptTitle := "TypeScript 高级特性详解"
  const TypeScriptSummary := "深入探讨 TypeScript 的高级特性，包括泛型、装饰器、" + "类型体操等内容，帮助你更好地掌握 TypeScript 的类型系统..."
  const TypeScriptPost := Post(
    2, TypeScriptTitle, TypeScriptSummary, Date(2024, 3, 19),
    ["TypeScript", "前端开发"], Some(35))

  const ScreenAdaptationTitle := "前端大屏适配与弹性布局最佳实践"
  const ScreenAdaptationSummary1 := "详细介绍大屏项目的自适应方案，包括 scale 缩放、"
  const ScreenAdaptationSummary2 := "rem 适配、vw/vh 布局等多种实现方式，"
  const ScreenAdaptationSummary3 := "以及实际项目中的应用案例..."
  const ScreenAdaptationSummary := ScreenAdaptationSummary1 + ScreenAdaptationSummary2 + ScreenAdaptationSummary3
  const ScreenAdaptationPost := Post(
    3, ScreenAdaptationTitle, ScreenAdaptationSummary, Date(2024, 3, 21),
    ["前端开发", "响应式布局", "大屏开发"], Some(28))

  const CalendarGuideTitle := "React 集成 TOAST UI Calendar " + "实现强大的日历功能 - 完整指南"
  const CalendarGuideSummary1 := "详细介绍如何在 React 项目中"
  const CalendarGuideSummary2 := "集成和使用 TOAST UI Calendar，包括基础配置、"
  const CalendarGuideSummary3 := "高级功能、性能优化、实际应用案例等全方位的内容..."
  const CalendarGuideSummary := CalendarGuideSummary1 + CalendarGuideSummary2 + CalendarGuideSummary3
  const CalendarGuidePost := Post(
    4, CalendarGuideTitle, CalendarGuideSummary, Date(2024, 11, 12),
    ["React", "前端开发", "UI组件", "Calendar", "实战教程"], Some(15))

  /** `blogPosts`, in key order 1..4. */
  const BlogPostsStore: seq<Post> := [ReactTailwindPost, TypeScriptPost, ScreenAdaptationPost, CalendarGuidePost]

  lemma StoreIsValid()
    ensures ValidStore(BlogPostsStore)
  {
  }

  /** Sorted newest first, the ids come out as 4, 3, 1, 2. */
  lemma AllPostsOrder()
    ensures GetAllPosts(BlogPostsStore) == [CalendarGuidePost, ScreenAdaptationPost, ReactTailwindPost, TypeScriptPost]
  {
    var p1, p2, p3, p4 := ReactTailwindPost, TypeScriptPost, ScreenAdaptationPost, CalendarGuidePost;
    assert [p1, p2, p3, p4][1..] == [p2, p3, p4];
    assert [p2, p3, p4][1..] == [p3, p4];
    assert [p3, p4][1..] == [p4];
    assert SortByDate([p4], Newest) == [p4];
    assert Insert(p3, [p4], Newest) == [p4, p3] by {
      assert [p4][1..] == [];
    }
    assert SortByDate([p3, p4], Newest) == [p4, p3];
    assert Insert(p2, [p4, p3], Newest) == [p4, p3, p2] by {
      assert [p4, p3][1..] == [p3];
      assert Insert(p2, [p3], Newest) == [p3, p2] by {
        assert [p3][1..] == [];
      }
    }
    assert SortByDate([p2, p3, p4], Newest) == [p4, p3, p2];
    assert Insert(p1, [p4, p3, p2], Newest) == [p4, p3, p1, p2] by {
      assert [p4, p3, p2][1..] == [p3, p2];
      assert [p3, p2][1..] == [p2];
      assert Insert(p1, [p2], Newest) == [p1, p2];
      assert Insert(p1, [p3, p2], Newest) == [p3, p1, p2];
    }
  }

  /** No post has key 999; key 2 is the TypeScript post. */
  lemma LookupScenarios()
    ensures GetPost(BlogPostsStore, 999) == None
    ensures GetPost(BlogPostsStore, 2) == Some(TypeScriptPost)
  {
  }

  /* ---------- search ---------- */

  /** A text without 'y' or 'Y' cannot match the query "TypeScript" in any case. */
  lemma LacksY(s: string)
    requires 'y' !in s && 'Y' !in s
    ensures !Contains(Lower(s), "typescript")
  {
    LowerAvoids(s, 'y', 'Y');
    assert "typescript"[1] == 'y';
    MissingCharNotContained(Lower(s), "typescript", 'y');
  }

  lemma ReactTailwindTitleLacksY()
    ensures !Contains(Lower(ReactTailwindTitle), "typescript")
  {
    assert 'y' !in ReactTailwindTitle;
    assert 'Y' !in ReactTailwindTitle;
    LacksY(ReactTailwindTitle);
  }

  lemma ReactTailwindSummary1Chars()
    ensures 'y' !in ReactTailwindSummary1 && 'Y' !in ReactTailwindSummary1
  {
  }

  lemma ReactTailwindSummary2Chars()
    ensures 'y' !in ReactTailwindSummary2 && 'Y' !in ReactTailwindSummary2
  {
  }

  lemma ReactTailwindSummary3Chars()
    ensures 'y' !in ReactTailwindSummary3 && 'Y' !in ReactTailwindSummary3
  {
  }

  lemma ReactTailwindSummaryChars()
    ensures 'y' !in ReactTailwindSummary && 'Y' !in ReactTailwindSummary
  {
    ReactTailwindSummary1Chars();
    ReactTailwindSummary2Chars();
    ReactTailwindSummary3Chars();
  }

  lemma ReactTailwindSummaryLacksY()
    ensures !Contains(Lower(ReactTailwindSummary), "typescript")
  {
    ReactTailwindSummaryChars();
    LacksY(ReactTailwindSummary);
  }

  lemma ScreenAdaptationTitleLacksY()
    ensures !Contains(Lower(ScreenAdaptationTitle), "typescript")
  {
    assert 'y' !in ScreenAdaptationTitle;
    assert 'Y' !in ScreenAdaptationTitle;
    LacksY(ScreenAdaptationTitle);
  }

  lemma ScreenAdaptationSummary1Chars()
    ensures 'y' !in ScreenAdaptationSummary1 && 'Y' !in ScreenAdaptationSummary1
  {
  }

  lemma ScreenAdaptationSummary2Chars()
    ensures 'y' !in ScreenAdaptationSummary2 && 'Y' !in ScreenAdaptationSummary2
  {
  }

  lemma ScreenAdaptationSummary3Chars()
    ensures 'y' !in ScreenAdaptationSummary3 && 'Y' !in ScreenAdaptationSummary3
  {
  }

  lemma ScreenAdaptationSummaryChars()
    ensures 'y' !in ScreenAdaptationSummary && 'Y' !in ScreenAdaptationSummary
  {
    ScreenAdaptationSummary1Chars();
    ScreenAdaptationSummary2Chars();
    ScreenAdaptationSummary3Chars();
  }

  lemma ScreenAdaptationSummaryLacksY()
    ensures !Contains(Lower(ScreenAdaptationSummary), "typescript")
  {
    ScreenAdaptationSummaryChars();
    LacksY(ScreenAdaptationSummary);
  }

  lemma CalendarGuideTitleLacksY()
    ensures !Contains(Lower(CalendarGuideTitle), "typescript")
  {
    assert 'y' !in CalendarGuideTitle;
    assert 'Y' !in CalendarGuideTitle;
    LacksY(CalendarGuideTitle);
  }

  lemma CalendarGuideSummary1Chars()
    ensures 'y' !in CalendarGuideSummary1 && 'Y' !in CalendarGuideSummary1
  {
  }

  lemma CalendarGuideSummary2Chars()
    ensures 'y' !in CalendarGuideSummary2 && 'Y' !in CalendarGuideSummary2
  {
  }

  lemma CalendarGuideSummary3Chars()
    ensures 'y' !in CalendarGuideSummary3 && 'Y' !in CalendarGuideSummary3
  {
  }

  lemma CalendarGuideSummaryChars()
    ensures 'y' !in CalendarGuideSummary && 'Y' !in CalendarGuideSummary
  {
    CalendarGuideSummary1Chars();
    CalendarGuideSummary2Chars();
    CalendarGuideSummary3Chars();
  }

  lemma CalendarGuideSummaryLacksY()
    ensures !Contains(Lower(CalendarGuideSummary), "typescript")
  {
    CalendarGuideSummaryChars();
    LacksY(CalendarGuideSummary);
  }

  lemma ReactTailwindLacksY()
    ensures !Matches(ReactTailwindPost, "typescript")
  {
    ReactTailwindTitleLacksY();
    ReactTailwindSummaryLacksY();
    var tags := ReactTailwindPost.tags;
    AnyTagContainsIff(tags, "typescript");
    forall i | 0 <= i < |tags| ensures !Contains(Lower(tags[i]), "typescript") {
      LacksY(tags[i]);
    }
  }

  lemma ScreenAdaptationLacksY()
    ensures !Matches(ScreenAdaptationPost, "typescript")
  {
    ScreenAdaptationTitleLacksY();
    ScreenAdaptationSummaryLacksY();
    var tags := ScreenAdaptationPost.tags;
    AnyTagContainsIff(tags, "typescript");
    forall i | 0 <= i < |tags| ensures !Contains(Lower(tags[i]), "typescript") {
      LacksY(tags[i]);
    }
  }

  lemma CalendarGuideLacksY()
    ensures !Matches(CalendarGuidePost, "typescript")
  {
    CalendarGuideTitleLacksY();
    CalendarGuideSummaryLacksY();
    var tags := CalendarGuidePost.tags;
    AnyTagContainsIff(tags, "typescript");
    forall i | 0 <= i < |tags| ensures !Contains(Lower(tags[i]), "typescript") {
      LacksY(tags[i]);
    }
  }

  lemma TypeScriptMatches()
    ensures Matches(TypeScriptPost, "typescript")
  {
    var t := Lower(TypeScriptPost.title);
    assert t[..10] == "typescript";
    ContainsAt(t, "typescript", 0);
  }

  /** getAllPosts of the blog, in order, never repeats a post. */
  lemma AllPostsNoDup()
    ensures NoDup(GetAllPosts(BlogPostsStore))
  {
    StoreIsValid();
    GetAllPostsMembers(BlogPostsStore);
  }

  /** Searching "TypeScript" finds only the TypeScript post. */
  lemma SearchTypeScript()
    ensures SearchPosts(BlogPostsStore, "TypeScript") == [TypeScriptPost]
  {
    var q := "TypeScript";
    assert Lower(q) == "typescript";
    ReactTailwindLacksY();
    ScreenAdaptationLacksY();
    CalendarGuideLacksY();
    TypeScriptMatches();
    var all := GetAllPosts(BlogPostsStore);
    AllPostsOrder();
    AllPostsNoDup();
    assert IsSubseq([TypeScriptPost], all) by {
      assert all[1..][1..][1..] == [TypeScriptPost];
      SubseqReflexive([TypeScriptPost]);
    }
    SubseqUnique(SearchPosts(BlogPostsStore, q), [TypeScriptPost], all);
  }

  /** Posts tagged "React", newest first: the calendar guide, then the Tailwind post. */
  lemma TagReact()
    ensures GetPostsByTag(BlogPostsStore, "React") == [CalendarGuidePost, ReactTailwindPost]
  {
    var all := GetAllPosts(BlogPostsStore);
    var c := [CalendarGuidePost, ReactTailwindPost];
    AllPostsOrder();
    AllPostsNoDup();
    assert IsSubseq(c, all) by {
      assert all[1..][1..] == [ReactTailwindPost, TypeScriptPost];
      assert c[1..] == [ReactTailwindPost];
      assert IsSubseq(c[1..], all[1..][1..]) by {
        assert IsSubseq([], [TypeScriptPost]);
      }
      assert IsSubseq(c[1..], all[1..]);
    }
    assert "React" !in TypeScriptPost.tags && "React" !in ScreenAdaptationPost.tags;
    SubseqUnique(GetPostsByTag(BlogPostsStore, "React"), c, all);
  }

  /** The default limit of five exceeds the four posts: all of them are recent. */
  lemma RecentDefault()
    ensures GetRecentPosts(BlogPostsStore, DefaultRecentLimit) == GetAllPosts(BlogPostsStore)
    ensures GetRecentPosts(BlogPostsStore, 2) == [CalendarGuidePost, ScreenAdaptationPost]
  {
    AllPostsOrder();
  }

  /* ---------- archive ---------- */

  lemma FixtureMonths()
    ensures PostMonth(CalendarGuidePost) == "2024-11"
    ensures PostMonth(ScreenAdaptationPost) == "2024-03"
    ensures PostMonth(ReactTailwindPost) == "2024-03"
    ensures PostMonth(TypeScriptPost) == "2024-03"
  {
    assert NatToString(2024) == "2024" by {
      assert NatToString(20) == "20";
      assert NatToString(202) == "202";
    }
    assert PadStart2(NatToString(3)) == "03";
    assert PadStart2(NatToString(11)) == "11" by {
      assert NatToString(11) == "11";
    }
  }

  /** De-duplicating one value followed by three copies of another keeps the two. */
  lemma DedupFirstThenRepeated<T>(a: T, b: T)
    requires a != b
    ensures Dedup([a, b, b, b]) == [a, b]
  {
    assert Dedup([a]) == [a] by {
      assert [a][..0] == [];
    }
    assert Dedup([a, b]) == [a, b] by {
      assert [a, b][..1] == [a];
    }
    assert Dedup([a, b, b]) == [a, b] by {
      assert [a, b, b][..2] == [a, b];
    }
    assert [a, b, b, b][..3] == [a, b, b];
  }

  /** De-duplicating four copies of a value keeps one. */
  lemma DedupAllSame<T>(a: T)
    ensures Dedup([a, a, a, a]) == [a]
  {
    assert Dedup([a]) == [a] by {
      assert [a][..0] == [];
    }
    assert Dedup([a, a]) == [a] by {
      assert [a, a][..1] == [a];
    }
    assert Dedup([a, a, a]) == [a] by {
      assert [a, a, a][..2] == [a, a];
    }
    assert [a, a, a, a][..3] == [a, a, a];
  }

  /** The archive's year list: every post is from 2024. */
  lemma YearsScenario()
    ensures Years(GetAllPosts(BlogPostsStore)) == [2024]
  {
    AllPostsOrder();
    var ys := YearList(GetAllPosts(BlogPostsStore));
    assert ys == [2024, 2024, 2024, 2024];
    DedupAllSame(2024);
    assert [2024][1..] == [];
  }

  /** The key list of four posts whose first key differs from the three others' common key. */
  lemma KeyListOfFour(a: Post, b: Post, c: Post, d: Post, key: Post -> string, ka: string, kb: string)
    requires key(a) == ka && key(b) == kb && key(c) == kb && key(d) == kb
    ensures KeyList([a, b, c, d], key) == [ka, kb, kb, kb]
  {
  }

  /** The keys of the blog's posts, newest first. */
  lemma FixtureKeyList()
    ensures KeyList(GetAllPosts(BlogPostsStore), PostMonth) == ["2024-11", "2024-03", "2024-03", "2024-03"]
  {
    AllPostsOrder();
    FixtureMonths();
    KeyListOfFour(CalendarGuidePost, ScreenAdaptationPost, ReactTailwindPost, TypeScriptPost, PostMonth, "2024-11", "2024-03");
  }

  /** The buckets of the blog's archive are created for November, then March. */
  lemma KeysScenario()
    ensures GroupKeys(GetAllPosts(BlogPostsStore), PostMonth) == ["2024-11", "2024-03"]
  {
    FixtureKeyList();
    var nov: string, mar: string := "2024-11", "2024-03";
    assert nov != mar by {
      assert nov[5] != mar[5];
    }
    DedupFirstThenRepeated(nov, mar);
  }

  /** Listed newest month first, November comes before March. */
  lemma MonthsScenario()
    ensures SortedMonths(["2024-11", "2024-03"]) == ["2024-11", "2024-03"]
  {
    var nov: string, mar: string := "2024-11", "2024-03";
    assert StrLess(mar, nov) by {
      assert mar[..5] == nov[..5];
      StrLessConcat(mar[..5], mar[5..], nov[..5], nov[5..]);
      assert mar[5..] == "03" && nov[5..] == "11";
      assert mar == mar[..5] + mar[5..] && nov == nov[..5] + nov[5..];
    }
    assert [nov, mar][1..] == [mar];
    assert SortWith([mar], KeyAfter) == [mar];
  }

  /* ---------- home page ---------- */

  /** After one press of the sort button the order is oldest first, but a blank search then
      shows getAllPosts, which is newest first: the list and the button disagree. */
  lemma BlankSearchAfterToggle()
    ensures Newest.Flip() == Oldest
    ensures !SortedBy(GetAllPosts(BlogPostsStore), Newest.Flip())
  {
    AllPostsOrder();
    var all := GetAllPosts(BlogPostsStore);
    assert all[0] == CalendarGuidePost && all[1] == ScreenAdaptationPost;
    assert !Precedes(all[0].date, all[1].date, Oldest);
  }

  /** The same sequence on the page itself: open the home page with nothing saved, press
      the sort button, then submit an empty search. The button says oldest first while the
      list is newest first. */
  method ToggleThenBlankSearch() returns (shown: seq<Post>, order: Order)
    ensures order == Oldest && shown == GetAllPosts(BlogPostsStore)
    ensures !SortedBy(shown, order)
  {
    var page := new HomePage(BlogPostsStore, None);
    page.ToggleSort();
    page.HandleSearch("");
    BlankSearchAfterToggle();
    assert !page.InOrder();
    shown := page.displayPosts;
    order := page.sortOrder;
  }
}
