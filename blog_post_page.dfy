/** The post page: the like button and the classification of fenced code blocks. */
module BlogPostPage {
  import opened Wrappers
  import opened Posts
  import opened BlogPosts

  /* ---------- likes ---------- */

  /** `post?.likes || 0`: the stored count, or 0 when there is no post or no count. */
  function InitialLikes(post: Option<Post>): (r: int)
    ensures post.None? ==> r == 0
    ensures post.Some? && post.value.likes.Some? ==> r == post.value.likes.value
    ensures post.Some? && post.value.likes.None? ==> r == 0
  {
    match post
    case None => 0
    case Some(p) => p.likes.GetOr(0)
  }

  /** The like button's state. */
  datatype LikeState = LikeState(liked: bool, count: int)

  /** One press of the button: toggles `liked`; the count goes up when it becomes liked and
      down when it stops being liked. */
  function Press(s: LikeState): (r: LikeState)
    ensures r.liked == !s.liked
    ensures r.count == if r.liked then s.count + 1 else s.count - 1
  {
    if !s.liked then LikeState(true, s.count + 1) else LikeState(false, s.count - 1)
  }

  /** The count is the initial one plus one while liked. */
  predicate CountsLike(s: LikeState, initial: int) {
    s.count == initial + (if s.liked then 1 else 0)
  }

  /** A press keeps the count in step with the liked flag. */
  lemma PressKeepsCount(s: LikeState, initial: int)
    requires CountsLike(s, initial)
    ensures CountsLike(Press(s), initial)
    ensures initial <= Press(s).count <= initial + 1
  {
  }

  /** Two presses restore the state. */
  lemma PressTwice(s: LikeState)
    ensures Press(Press(s)) == s
  {
  }

  /** Any number of presses. */
  function PressTimes(s: LikeState, n: nat): LikeState {
    if n == 0 then s else Press(PressTimes(s, n - 1))
  }

  /** After n presses from the initial state the post is liked exactly when n is odd, and
      the count is the initial one plus one then. */
  lemma {:induction false} PressTimesCount(initial: int, n: nat)
    ensures PressTimes(LikeState(false, initial), n).liked == (n % 2 == 1)
    ensures CountsLike(PressTimes(LikeState(false, initial), n), initial)
  {
    if n > 0 {
      PressTimesCount(initial, n - 1);
      PressKeepsCount(PressTimes(LikeState(false, initial), n - 1), initial);
    }
  }

  /** The page for the post under `id`. */
  class PostPage {
    const post: Option<Post>
    const initialLikes: int
    var isLiked: bool
    var likeCount: int

    /** Looks the post up; not liked, count from the post. */
    constructor(store: seq<Post>, id: int)
      ensures post == GetPost(store, id) && initialLikes == InitialLikes(post)
      ensures !isLiked && likeCount == initialLikes
    {
      var found := GetPost(store, id);
      post := found;
      initialLikes := InitialLikes(found);
      isLiked := false;
      likeCount := InitialLikes(found);
    }

    ghost predicate Counted()
      reads this
    {
      CountsLike(LikeState(isLiked, likeCount), initialLikes)
    }

    /** `handleLike`: one press. */
    method HandleLike()
      modifies this
      ensures LikeState(isLiked, likeCount) == Press(old(LikeState(isLiked, likeCount)))
      ensures old(Counted()) ==> Counted()
    {
      if !isLiked {
        likeCount := likeCount + 1;
      } else {
        likeCount := likeCount - 1;
      }
      isLiked := !isLiked;
    }
  }

  /* ---------- code blocks ---------- */

  /** `\w`: ASCII letters, digits and underscore. */
  predicate IsWordChar(c: char) {
    ('a' <= c <= 'z') || ('A' <= c <= 'Z') || ('0' <= c <= '9') || c == '_'
  }

  const Prefix: string := "language-"

  /** `/language-(\w+)/` can match at position k: the prefix followed by a word character. */
  predicate MatchesAt(s: string, k: nat) {
    k + |Prefix| < |s| && s[k..k + |Prefix|] == Prefix && IsWordChar(s[k + |Prefix|])
  }

  /** The end of the run of word characters starting at i. */
  function WordRunEnd(s: string, i: nat): (e: nat)
    requires i <= |s|
    ensures i <= e <= |s|
    ensures forall j :: i <= j < e ==> IsWordChar(s[j])
    ensures e == |s| || !IsWordChar(s[e])
    decreases |s| - i
  {
    if i < |s| && IsWordChar(s[i]) then WordRunEnd(s, i + 1) else i
  }

  /** The leftmost position from k on where the expression matches. */
  function FirstMatch(s: string, k: nat): (r: Option<nat>)
    ensures r.Some? ==> k <= r.value && MatchesAt(s, r.value)
    ensures r.Some? ==> forall j :: k <= j < r.value ==> !MatchesAt(s, j)
    ensures r.None? ==> forall j :: k <= j ==> !MatchesAt(s, j)
    decreases |s| - k
  {
    if k + |Prefix| >= |s| then None
    else if MatchesAt(s, k) then Some(k)
    else FirstMatch(s, k + 1)
  }

  /** `match[1]` of `/language-(\w+)/.exec(className || '')`: the whole run of word
      characters after the leftmost match, or None when the class name has no match. */
  function Language(className: Option<string>): (r: Option<string>)
    ensures r.Some? <==> exists k: nat :: MatchesAt(className.GetOr(""), k)
  {
    var s := className.GetOr("");
    match FirstMatch(s, 0)
    case None => None
    case Some(k) => Some(s[k + |Prefix|..WordRunEnd(s, k + |Prefix|)])
  }

  /** The language is a non-empty run of word characters that follows `language-` at the
      leftmost match and is not followed by another word character. */
  lemma LanguageShape(className: Option<string>)
    requires Language(className).Some?
    ensures exists k: nat ::
              MatchesAt(className.GetOr(""), k)
              && (forall j :: 0 <= j < k ==> !MatchesAt(className.GetOr(""), j))
              && var s := className.GetOr("");
                 var e := k + |Prefix| + |Language(className).value|;
                 e <= |s| && s[k + |Prefix|..e] == Language(className).value
                 && (e == |s| || !IsWordChar(s[e]))
    ensures |Language(className).value| >= 1
    ensures forall i :: 0 <= i < |Language(className).value| ==> IsWordChar(Language(className).value[i])
  {
    var s := className.GetOr("");
    var k := FirstMatch(s, 0).value;
    var e := WordRunEnd(s, k + |Prefix|);
    assert Language(className).value == s[k + |Prefix|..e];
  }

  /** `String(children).replace(/\n$/, '')`: one newline at the very end is removed. */
  function StripTrailingNewline(text: string): (r: string)
    ensures r + (if |r| < |text| then "\n" else "") == text
    ensures |text| - 1 <= |r| <= |text|
    ensures |r| < |text| <==> text != "" && text[|text| - 1] == '\n'
  {
    if text != "" && text[|text| - 1] == '\n' then text[..|text| - 1] else text
  }

  /** Only one newline goes: a text ending in two keeps the first. */
  lemma StripOnlyOne(text: string)
    ensures StripTrailingNewline(text + "\n\n") == text + "\n"
  {
    assert (text + "\n\n")[..|text| + 1] == text + "\n";
  }

  /** What the `code` renderer produces: a highlighted block, or the plain element. */
  datatype CodeView =
    | Highlighted(language: string, text: string)
    | Plain(className: Option<string>, text: string)

  /** The `code` renderer: a block (not inline) with a language is highlighted with one
      trailing newline removed; everything else is passed through untouched. */
  function RenderCode(inline: bool, className: Option<string>, children: string): (r: CodeView)
    ensures r.Highlighted? <==> !inline && Language(className).Some?
    ensures r.Highlighted? ==> r.language == Language(className).value && r.text == StripTrailingNewline(children)
    ensures r.Plain? ==> r.className == className && r.text == children
  {
    var lang := Language(className);
    if !inline && lang.Some? then Highlighted(lang.value, StripTrailingNewline(children))
    else Plain(className, children)
  }

  /** The word after the match is the language. */
  lemma LanguageOfPlainClass()
    ensures Language(Some("language-js")) == Some("js")
  {
    var a := "language-js";
    assert a[0..9] == Prefix;
    assert FirstMatch(a, 0) == Some(0);
    assert WordRunEnd(a, 11) == 11;
    assert WordRunEnd(a, 9) == 11;
    assert Some(a).GetOr("") == a && a[9..11] == "js";
  }

  /** The word stops at the first non-word character. */
  lemma LanguageStopsAtNonWord()
    ensures Language(Some("language-c++")) == Some("c")
  {
    var b := "language-c++";
    assert b[0..9] == Prefix;
    assert FirstMatch(b, 0) == Some(0);
    assert WordRunEnd(b, 10) == 10;
    assert WordRunEnd(b, 9) == 10;
    assert Some(b).GetOr("") == b && b[9..10] == "c";
  }

  /** A `language-` with no word after it does not match; a later one does. */
  lemma LanguageSkipsBarePrefix()
    ensures Language(Some("language- language-ts")) == Some("ts")
  {
    var c := "language- language-ts";
    assert c[10..19] == Prefix;
    assert MatchesAt(c, 10);
    assert !MatchesAt(c, 0);
    assert c[9..18][0] != 'l';
    assert FirstMatch(c, 9) == Some(10);
    assert c[8..17][0] != 'l';
    assert FirstMatch(c, 8) == Some(10);
    assert c[7..16][0] != 'l';
    assert FirstMatch(c, 7) == Some(10);
    assert c[6..15][0] != 'l';
    assert FirstMatch(c, 6) == Some(10);
    assert c[5..14][0] != 'l';
    assert FirstMatch(c, 5) == Some(10);
    assert c[4..13][0] != 'l';
    assert FirstMatch(c, 4) == Some(10);
    assert c[3..12][0] != 'l';
    assert FirstMatch(c, 3) == Some(10);
    assert c[2..11][0] != 'l';
    assert FirstMatch(c, 2) == Some(10);
    assert c[1..10][0] != 'l';
    assert FirstMatch(c, 1) == Some(10);
    assert FirstMatch(c, 0) == Some(10);
    assert WordRunEnd(c, 21) == 21;
    assert WordRunEnd(c, 19) == 21;
    assert Some(c).GetOr("") == c && c[19..21] == "ts";
  }
}
