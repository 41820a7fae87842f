/**
 * The post store and view state of the second app (blogcanhan2/App.tsx): the `usePosts` hook, the
 * derived filter and selection, the creation form with its read-time estimate, the share link and
 * the navigation that drops it.
 */
module Blog2 {
  import opened Wrappers
  import opened Types
  import opened Text
  import opened Listing
  import opened Storage
  import Json
  import Decimal
  import Share
  import Base64
  import C = Constants2

  const PostsKey: string := "myblog_cloud_posts"
  const DarkModeKey: string := "darkMode"
  const DefaultImage: string := "https://images.unsplash.com/photo-1499750310107-5fef28a66643?q=80&w=1000"
  const Author: string := "Người dùng"

  // ----- usePosts -----

  /**
   * The initial posts: `saved ? JSON.parse(saved) : initialValue`. There is no catch, so a stored
   * text that does not parse is an error (None) and the app does not mount.
   */
  function LoadPosts(storage: map<string, string>, today: string): (r: Option<seq<Post<string>>>)
    ensures r.None? ==> PostsKey in storage && storage[PostsKey] != ""
  {
    match GetItem(storage, PostsKey)
    case None => Some(C.InitialPosts(today))
    case Some(text) => if text == "" then Some(C.InitialPosts(today)) else Json.DecodePosts(text)
  }

  /** The seed when the slot is absent or empty; otherwise exactly what the stored text parses to. */
  lemma LoadPostsCases(storage: map<string, string>, today: string)
    ensures PostsKey !in storage || storage[PostsKey] == "" ==> LoadPosts(storage, today) == Some(C.InitialPosts(today))
    ensures PostsKey in storage && storage[PostsKey] != "" ==> LoadPosts(storage, today) == Json.DecodePosts(storage[PostsKey])
  {
  }

  /**
   * A stored text that is not a list of posts stops the app, where the first app falls back to its
   * seed; the text `{` is one.
   */
  lemma MalformedSlotFails(storage: map<string, string>, today: string)
    requires PostsKey in storage && storage[PostsKey] != "" && Json.DecodePosts(storage[PostsKey]).None?
    ensures LoadPosts(storage, today).None?
    ensures Json.DecodePosts("{").None?
  {
  }

  /** Reloading after `addPost` gives the written list back. */
  lemma LoadAfterWrite(storage: map<string, string>, ps: seq<Post<string>>, today: string)
    ensures LoadPosts(storage[PostsKey := Json.EncodePosts(ps)], today) == Some(ps)
  {
    Json.PostsRoundTrip(ps);
    assert Json.EncodePosts(ps) != "" by {
      if ps != [] {
        assert Json.EncodePosts(ps)[0] == '[';
      }
    }
  }

  /** The theme: `localStorage.getItem('darkMode') === 'true'`. */
  function LoadDarkMode(storage: map<string, string>): (r: bool)
    ensures r <==> DarkModeKey in storage && storage[DarkModeKey] == "true"
  {
    GetItem(storage, DarkModeKey) == Some("true")
  }

  /** The theme effect writes `darkMode.toString()`, which reads back as the same theme. */
  lemma DarkModeRoundTrip(storage: map<string, string>, b: bool)
    ensures LoadDarkMode(storage[DarkModeKey := Json.EncodeBool(b)]) == b
  {
  }

  // ----- the filter (lines 168-175) -----

  /** The raw comparison: the post's stored category against the selected label. */
  predicate MatchesCategory(category: string, selected: string) {
    selected == C.AllLabel || category == selected
  }

  function FilteredPosts(posts: seq<Post<string>>, query: string, selected: string): (r: seq<Post<string>>)
    ensures IsSubsequence(r, posts)
    ensures forall p :: p in r <==> p in posts && MatchesSearch(p, query) && MatchesCategory(p.category, selected)
  {
    Filter(posts, (p: Post<string>) => MatchesSearch(p, query) && MatchesCategory(p.category, selected))
  }

  /** With the query `''` and the sentinel, the initial filter state, every post is shown. */
  lemma UnfilteredShowsAll(posts: seq<Post<string>>)
    ensures FilteredPosts(posts, "", C.AllLabel) == posts
  {
    var keep := (p: Post<string>) => MatchesSearch(p, "") && MatchesCategory(p.category, C.AllLabel);
    forall i | 0 <= i < |posts| ensures keep(posts[i]) {
      EmptyQueryMatches(posts[i]);
    }
    FilterKeepsAll(posts, keep);
  }

  /** A one-post list whose post passes both tests is shown whole. */
  lemma SingletonShown(s: seq<Post<string>>, query: string, selected: string)
    requires |s| == 1 && MatchesSearch(s[0], query) && MatchesCategory(s[0].category, selected)
    ensures FilteredPosts(s, query, selected) == s
  {
    FilterCons(s[0], [], (p: Post<string>) => MatchesSearch(p, query) && MatchesCategory(p.category, selected));
    assert [s[0]] + [] == s;
  }

  /** The seed, whose category is the label 'Thiết kế', is shown under that label. */
  lemma SeedShownUnderItsLabel(today: string)
    ensures FilteredPosts(C.InitialPosts(today), "", "Thiết kế") == C.InitialPosts(today)
  {
    var seed := C.InitialPosts(today);
    EmptyQueryMatches(seed[0]);
    SingletonShown(seed, "", "Thiết kế");
  }

  lemma SeedTitleHoldsMyBlog()
    ensures |C.SeedTitle| >= 28 && C.SeedTitle[22..28] == "MyBlog"
  {
  }

  /** Lowering 'MyBlog' or 'myblog' gives 'myblog'. */
  lemma LowerMyBlog()
    ensures Lower("MyBlog") == "myblog" && Lower("myblog") == "myblog"
  {
    var a, b := Lower("MyBlog"), Lower("myblog");
    assert a[0] == 'm' && a[1] == 'y' && a[2] == 'b' && a[3] == 'l' && a[4] == 'o' && a[5] == 'g';
    assert b[0] == 'm' && b[1] == 'y' && b[2] == 'b' && b[3] == 'l' && b[4] == 'o' && b[5] == 'g';
  }

  /** Lowering 'MyBlog' or 'myblog' anywhere in a text gives 'myblog' there. */
  lemma LowerOfMyBlog(s: string, i: nat)
    requires i + 6 <= |s| && (s[i..i + 6] == "MyBlog" || s[i..i + 6] == "myblog")
    ensures |Lower(s)| == |s| && Lower(s)[i..i + 6] == "myblog"
  {
    LowerSlice(s, i, i + 6);
    LowerMyBlog();
  }

  /** A title holding 'MyBlog' anywhere matches the search 'myblog'. */
  lemma MyBlogMatches(p: Post<string>)
    requires Includes(p.title, "MyBlog")
    ensures MatchesSearch(p, "myblog")
  {
    var i: nat :| OccursAt(p.title, "MyBlog", i);
    LowerOfMyBlog(p.title, i);
    LowerMyBlog();
    IncludesAt(Lower(p.title), Lower("myblog"), i);
  }

  /** The seed's title holds 'MyBlog', so a search for 'myblog' under the sentinel finds it. */
  lemma SeedFoundBySearch(today: string)
    ensures FilteredPosts(C.InitialPosts(today), "myblog", C.AllLabel) == C.InitialPosts(today)
  {
    var seed := C.InitialPosts(today);
    SeedTitleHoldsMyBlog();
    IncludesAt(C.SeedTitle, "MyBlog", 22);
    MyBlogMatches(seed[0]);
    SingletonShown(seed, "myblog", C.AllLabel);
  }

  // ----- the creation form (lines 329-345) -----

  /** `Math.ceil(length / 800)`. */
  function ReadTimeMinutes(length: nat): (n: nat)
    ensures n * 800 >= length
    ensures n > 0 ==> (n - 1) * 800 < length
  {
    (length + 799) / 800
  }

  /** The estimate is the least number of minutes whose 800 characters each cover the length. */
  lemma ReadTimeIsLeast(length: nat, m: nat)
    requires m * 800 >= length
    ensures ReadTimeMinutes(length) <= m
  {
  }

  const MinutesSuffix: string := " phút đọc"

  /**
   * `readTime`: the minutes over the content's UTF-16 length, then ' phút đọc'. The text is a
   * decimal number, which denotes those minutes, followed by the suffix.
   */
  function ReadTime(content: string): (r: string)
    ensures |r| > |MinutesSuffix| && r[|r| - |MinutesSuffix|..] == MinutesSuffix
    ensures var digits := r[..|r| - |MinutesSuffix|];
            (forall i :: 0 <= i < |digits| ==> '0' <= digits[i] <= '9') &&
            Decimal.DigitsValue(digits) == ReadTimeMinutes(Utf16Length(content))
  {
    var digits := Decimal.NatToString(ReadTimeMinutes(Utf16Length(content)));
    Decimal.DigitsValueOfNatToString(ReadTimeMinutes(Utf16Length(content)));
    var r := digits + MinutesSuffix;
    assert r[..|r| - |MinutesSuffix|] == digits && r[|r| - |MinutesSuffix|..] == MinutesSuffix;
    r
  }

  /** The form's fields; `previewSrc` is the preview image's source, `''` when nothing was uploaded. */
  datatype Form = Form(title: string, excerpt: string, content: string, category: string, previewSrc: string)

  /** The post the submit handler builds, from the milliseconds `now` and the formatted date `today`. */
  function NewPost(form: Form, now: nat, today: string): (p: Post<string>)
    ensures p.id == Decimal.NatToString(now) && p.date == today && p.author == Author
    ensures p.title == form.title && p.excerpt == form.excerpt && p.content == form.content
    ensures p.category == form.category && p.readTime == ReadTime(form.content)
    ensures p.imageUrl == if form.previewSrc == "" then DefaultImage else form.previewSrc
  {
    Post(Decimal.NatToString(now), form.title, form.content, form.excerpt, form.category, Author, today,
         if form.previewSrc == "" then DefaultImage else form.previewSrc, ReadTime(form.content))
  }

  /** A submitted post carries one of the five labels, so the label filter of its category shows it. */
  lemma NewPostIsFound(posts: seq<Post<string>>, form: Form, now: nat, today: string)
    requires form.category in C.Categories()[1..]
    ensures NewPost(form, now, today).category != C.AllLabel
    ensures NewPost(form, now, today) in FilteredPosts([NewPost(form, now, today)] + posts, form.title, form.category)
  {
    C.CategoriesShape();
    TitleMatchesItself(NewPost(form, now, today), form.title);
  }

  // ----- the share link and the selection (lines 141-158, 177-184) -----

  /** The `post` parameter of the page's query, when it is there and not empty. */
  function SharedPayload(search: string): Option<string> {
    match Share.GetParam(search, "post")
    case Some(v) => if v != "" then Some(v) else None
    case None => None
  }

  /** The post a shared link in the address carries, when its payload decodes (corrected decoder). */
  function SharedPost(search: string): Option<Post<string>> {
    match SharedPayload(search)
    case Some(v) => Share.OpenPayload(v)
    case None => None
  }

  /** The post a shared link in the address carries as written: `JSON.parse(atob(sharedData))`. */
  function SharedPostAsWritten(search: string): Option<Post<string>> {
    match SharedPayload(search)
    case Some(v) => Share.OpenAsWritten(v)
    case None => None
  }

  /**
   * `selectedPost` as written: on the detail page a shared payload takes priority and is opened
   * with `JSON.parse(atob(...))`, giving null when that throws; otherwise the first post with the
   * selected id.
   */
  function SelectionAsWritten(posts: seq<Post<string>>, selectedId: Option<string>, search: string, page: Page): (r: Option<Post<string>>)
    ensures SharedPayload(search).Some? && page == PostDetail ==> r == SharedPostAsWritten(search)
    ensures SharedPayload(search).None? || page != PostDetail ==> r == FindById(posts, selectedId)
  {
    if SharedPayload(search).Some? && page == PostDetail then SharedPostAsWritten(search) else FindById(posts, selectedId)
  }

  /** `selectedPost` corrected: a payload that does not decode gives way to the store. */
  function Selection(posts: seq<Post<string>>, selectedId: Option<string>, search: string, page: Page): (r: Option<Post<string>>)
    ensures SharedPost(search).Some? && page == PostDetail ==> r == SharedPost(search)
    ensures SharedPost(search).None? || page != PostDetail ==> r == FindById(posts, selectedId)
  {
    if SharedPost(search).Some? && page == PostDetail then SharedPost(search) else FindById(posts, selectedId)
  }

  /**
   * The two agree off the detail page and without a payload; they can differ only on the detail
   * page with a payload, where the code as written shows what `JSON.parse(atob(...))` opens or
   * nothing, and the corrected rule shows what the corrected decoder opens or the stored post.
   */
  lemma SelectionAgrees(posts: seq<Post<string>>, selectedId: Option<string>, search: string, page: Page)
    ensures SelectionAsWritten(posts, selectedId, search, page) != Selection(posts, selectedId, search, page) ==>
              page == PostDetail && SharedPayload(search).Some? &&
              SelectionAsWritten(posts, selectedId, search, page) == SharedPostAsWritten(search) &&
              Selection(posts, selectedId, search, page) ==
                (if SharedPost(search).Some? then SharedPost(search) else FindById(posts, selectedId))
  {
  }

  /** Without any `post` parameter, both rules show the first stored post with the selected id. */
  lemma SelectionWithoutPayload(posts: seq<Post<string>>, selectedId: Option<string>, search: string, page: Page)
    requires SharedPayload(search).None?
    ensures SelectionAsWritten(posts, selectedId, search, page) == FindById(posts, selectedId)
    ensures Selection(posts, selectedId, search, page) == FindById(posts, selectedId)
  {
  }

  /**
   * As written, the link `handleShare` copies for a Latin-1 post whose payload holds no `+`
   * selects that post on the detail page.
   */
  lemma SharedLinkSelectsPostAsWritten(posts: seq<Post<string>>, selectedId: Option<string>, p: Post<string>)
    requires Share.ShareAsWritten(p).Some? && '+' !in Share.ShareAsWritten(p).value
    ensures SelectionAsWritten(posts, selectedId, "?post=" + Share.ShareAsWritten(p).value, PostDetail) == Some(p)
  {
    var v := Share.ShareAsWritten(p).value;
    Share.OpenAsWrittenWithoutPlus(p);
    assert v != "" by {
      Share.OpenAsWrittenOfEmpty();
    }
  }

  /** The share link of any post carries that post. */
  lemma SharedPostOfLink(p: Post<string>)
    ensures SharedPayload(Share.ShareSearch(p)) == Some(Share.SharePayload(p))
    ensures SharedPost(Share.ShareSearch(p)) == Some(p)
  {
    Share.ShareRoundTrip(p);
    Share.OpenPayloadOfEmpty();
  }

  /** The share link of any post selects that post on the detail page. */
  lemma SharedLinkSelectsPost(posts: seq<Post<string>>, selectedId: Option<string>, p: Post<string>)
    ensures Selection(posts, selectedId, Share.ShareSearch(p), PostDetail) == Some(p)
  {
    SharedPostOfLink(p);
  }

  /** A query whose `post` value is the single character 'x', which no base 64 decoder accepts. */
  const BrokenSearch: string := "?post=x"

  lemma BrokenSearchCarriesX()
    ensures SharedPayload(BrokenSearch) == Some("x")
  {
    Share.PostParam("x");
    assert "?post=" + "x" == BrokenSearch;
    assert Share.QueryValue("x") == "x";
  }

  lemma BrokenSearchFailsToDecode()
    ensures SharedPayload(BrokenSearch) == Some("x")
    ensures SharedPost(BrokenSearch).None? && SharedPostAsWritten(BrokenSearch).None?
  {
    BrokenSearchCarriesX();
    Base64.DecodeSingle("x", true);
    Base64.DecodeSingle("x", false);
  }

  /**
   * As written, with a broken `post` parameter in the address, clicking the card of a stored post
   * opens a detail page with nothing selected, so nothing is shown.
   */
  lemma BrokenLinkHidesCardAsWritten(posts: seq<Post<string>>, i: nat)
    requires i < |posts|
    ensures FindById(posts, Some(posts[i].id)).Some?
    ensures SelectionAsWritten(posts, Some(posts[i].id), BrokenSearch, PostDetail).None?
  {
    BrokenSearchFailsToDecode();
  }

  /** Corrected, the clicked post is shown. */
  lemma BrokenLinkShowsCard(posts: seq<Post<string>>, i: nat)
    requires i < |posts|
    ensures Selection(posts, Some(posts[i].id), BrokenSearch, PostDetail) == FindById(posts, Some(posts[i].id))
    ensures Selection(posts, Some(posts[i].id), BrokenSearch, PostDetail).Some?
  {
    BrokenSearchFailsToDecode();
  }

  // ----- the app's state -----

  class App {
    var storage: map<string, string>
    var posts: seq<Post<string>>
    var darkMode: bool
    var currentPage: Page
    var selectedPostId: Option<string>
    var searchQuery: string
    var selectedCategory: string
    /** `window.location.search`. */
    var search: string

    /**
     * The first render and its theme effect, for a stored list that parses (otherwise the app
     * does not mount): posts and theme loaded, `darkMode` written back, home page.
     */
    constructor (stored: map<string, string>, locationSearch: string, today: string)
      requires LoadPosts(stored, today).Some?
      ensures posts == LoadPosts(stored, today).value && darkMode == LoadDarkMode(stored)
      ensures storage == stored[DarkModeKey := Json.EncodeBool(darkMode)]
      ensures currentPage == Home && selectedPostId == None
      ensures searchQuery == "" && selectedCategory == C.AllLabel && search == locationSearch
    {
      posts := LoadPosts(stored, today).value;
      darkMode := LoadDarkMode(stored);
      storage := stored[DarkModeKey := Json.EncodeBool(LoadDarkMode(stored))];
      currentPage := Home;
      selectedPostId := None;
      searchQuery := "";
      selectedCategory := C.AllLabel;
      search := locationSearch;
    }

    predicate PostsSynced()
      reads this
    {
      GetItem(storage, PostsKey) == Some(Json.EncodePosts(posts))
    }

    function Visible(): seq<Post<string>>
      reads this
    {
      FilteredPosts(posts, searchQuery, selectedCategory)
    }

    function Selected(): Option<Post<string>>
      reads this
    {
      Selection(posts, selectedPostId, search, currentPage)
    }

    /** `selectedPost` as the code computes it. */
    function SelectedAsWritten(): Option<Post<string>>
      reads this
    {
      SelectionAsWritten(posts, selectedPostId, search, currentPage)
    }

    /** The address holds no `post` parameter that decodes to a post. */
    predicate NoDecodablePayload()
      reads this
    {
      SharedPost(search).None?
    }

    /** The detail view renders on the detail page when something is selected (line 279). */
    predicate ShowsDetail()
      reads this
    {
      currentPage == PostDetail && Selected().Some?
    }

    /**
     * The mount effect for shared links: a `post` parameter that decodes selects the decoded
     * post's id and opens the detail page, showing that post; anything else changes nothing.
     * The store is never touched.
     */
    method OpenSharedLink()
      modifies this
      ensures SharedPost(search).Some? ==>
                selectedPostId == Some(SharedPost(search).value.id) && currentPage == PostDetail
      ensures SharedPost(search).Some? ==> Selected() == SharedPost(search) && ShowsDetail()
      ensures SharedPost(search).None? ==> selectedPostId == old(selectedPostId) && currentPage == old(currentPage)
      ensures unchanged(this`posts, this`storage, this`search)
      ensures unchanged(this`darkMode, this`searchQuery, this`selectedCategory)
    {
      var decoded := SharedPost(search);
      if decoded.Some? {
        selectedPostId := Some(decoded.value.id);
        currentPage := PostDetail;
        assert Selected() == decoded;
      }
    }

    /**
     * The mount effect for shared links as written: a `post` parameter that `JSON.parse(atob(...))`
     * opens selects the opened post's id and opens the detail page, which then shows that post;
     * when the parameter is missing or that call throws, nothing changes.
     */
    /** Once the shared post's id is selected on the detail page, the code as written shows it. */
    lemma ShowsSharedAsWritten()
      requires SharedPostAsWritten(search).Some?
      requires selectedPostId == Some(SharedPostAsWritten(search).value.id) && currentPage == PostDetail
      ensures SelectedAsWritten() == SharedPostAsWritten(search)
    {
      assert SharedPayload(search).Some?;
    }

    method OpenSharedLinkAsWritten()
      modifies this
      ensures SharedPostAsWritten(search).Some? ==>
                selectedPostId == Some(SharedPostAsWritten(search).value.id) && currentPage == PostDetail
      ensures SharedPostAsWritten(search).Some? ==> SelectedAsWritten() == SharedPostAsWritten(search)
      ensures SharedPostAsWritten(search).None? ==> selectedPostId == old(selectedPostId) && currentPage == old(currentPage)
      ensures unchanged(this`posts, this`storage, this`search)
      ensures unchanged(this`darkMode, this`searchQuery, this`selectedCategory)
    {
      var decoded := SharedPostAsWritten(search);
      if decoded.Some? {
        selectedPostId := Some(decoded.value.id);
        currentPage := PostDetail;
        ShowsSharedAsWritten();
      }
    }

    /**
     * `addPost`: the new post goes in front and the whole list is written under
     * 'myblog_cloud_posts'; when the write throws, memory has changed and storage has not.
     */
    method AddPost(p: Post<string>, quotaExceeded: bool)
      modifies this
      ensures posts == [p] + old(posts) && |posts| == |old(posts)| + 1 && posts[1..] == old(posts)
      ensures storage == if quotaExceeded then old(storage) else old(storage)[PostsKey := Json.EncodePosts(posts)]
      ensures !quotaExceeded ==> PostsSynced()
      ensures darkMode == old(darkMode) && currentPage == old(currentPage) && selectedPostId == old(selectedPostId)
      ensures searchQuery == old(searchQuery) && selectedCategory == old(selectedCategory) && search == old(search)
    {
      posts := [p] + posts;
      if !quotaExceeded {
        storage := storage[PostsKey := Json.EncodePosts(posts)];
      }
    }

    /**
     * Submitting the creation form (the browser submits only when title, excerpt and content are
     * filled in, and the select offers only the five labels): one post in front, then the blog
     * page, which is not reached when `addPost` throws.
     */
    method SubmitForm(form: Form, now: nat, today: string, quotaExceeded: bool)
      requires form.title != "" && form.excerpt != "" && form.content != ""
      requires form.category in C.Categories()[1..]
      modifies this
      ensures posts == [NewPost(form, now, today)] + old(posts)
      ensures posts[0].category in C.Categories()[1..] && posts[0].readTime == ReadTime(form.content)
      ensures storage == if quotaExceeded then old(storage) else old(storage)[PostsKey := Json.EncodePosts(posts)]
      ensures currentPage == if quotaExceeded then old(currentPage) else Blog
      ensures darkMode == old(darkMode) && selectedPostId == old(selectedPostId)
      ensures searchQuery == old(searchQuery) && selectedCategory == old(selectedCategory) && search == old(search)
    {
      AddPost(NewPost(form, now, today), quotaExceeded);
      if !quotaExceeded {
        currentPage := Blog;
      }
    }

    /** The theme button; the effect writes the new theme under 'darkMode'. */
    method ToggleTheme()
      modifies this
      ensures darkMode == !old(darkMode)
      ensures storage == old(storage)[DarkModeKey := Json.EncodeBool(darkMode)]
      ensures LoadDarkMode(storage) == darkMode
      ensures posts == old(posts) && currentPage == old(currentPage) && selectedPostId == old(selectedPostId)
      ensures searchQuery == old(searchQuery) && selectedCategory == old(selectedCategory) && search == old(search)
    {
      darkMode := !darkMode;
      storage := storage[DarkModeKey := Json.EncodeBool(darkMode)];
    }

    /**
     * The navigation bar's `setPage`: any page but the detail page also drops the query from the
     * address, after which the selection comes from the store again.
     */
    method Navigate(p: Page)
      modifies this
      ensures currentPage == p
      ensures search == if p == PostDetail then old(search) else ""
      ensures p != PostDetail ==> Selected() == FindById(posts, selectedPostId)
      ensures storage == old(storage) && posts == old(posts) && darkMode == old(darkMode)
      ensures selectedPostId == old(selectedPostId) && searchQuery == old(searchQuery)
      ensures selectedCategory == old(selectedCategory)
    {
      currentPage := p;
      if p != PostDetail {
        search := "";
      }
    }

    /** The detail page's back button: the blog page, and the query dropped (line 282). */
    method BackToBlog()
      modifies this
      ensures currentPage == Blog && search == ""
      ensures SharedPayload(search).None?
      ensures storage == old(storage) && posts == old(posts) && darkMode == old(darkMode)
      ensures selectedPostId == old(selectedPostId) && searchQuery == old(searchQuery)
      ensures selectedCategory == old(selectedCategory)
    {
      currentPage := Blog;
      search := "";
    }

    /** The other page buttons call `setCurrentPage` alone; the address keeps its query. */
    method GoTo(p: Page)
      modifies this
      ensures currentPage == p
      ensures storage == old(storage) && posts == old(posts) && darkMode == old(darkMode) && search == old(search)
      ensures selectedPostId == old(selectedPostId) && searchQuery == old(searchQuery)
      ensures selectedCategory == old(selectedCategory)
    {
      currentPage := p;
    }

    /** What the detail page shows once the card with the id `id` has been clicked. */
    lemma ShowsClicked(id: string)
      requires selectedPostId == Some(id) && currentPage == PostDetail
      ensures SelectedAsWritten() ==
                if SharedPayload(search).Some? then SharedPostAsWritten(search) else FindById(posts, Some(id))
      ensures NoDecodablePayload() ==> Selected() == FindById(posts, Some(id))
      ensures NoDecodablePayload() && (exists i :: 0 <= i < |posts| && posts[i].id == id) ==> ShowsDetail()
    {
      if exists i :: 0 <= i < |posts| && posts[i].id == id {
        var i :| 0 <= i < |posts| && posts[i].id == id;
        assert Some(posts[i].id) == Some(id);
      }
    }

    /**
     * Clicking a card: select its id and open the detail page; the address keeps its query. With
     * the corrected selection the clicked post is shown unless a decodable payload is in the
     * address; as written it is shown only when the address holds no `post` parameter at all.
     */
    method OpenCard(id: string)
      modifies this
      ensures storage == old(storage) && posts == old(posts) && darkMode == old(darkMode) && search == old(search)
      ensures searchQuery == old(searchQuery) && selectedCategory == old(selectedCategory)
      ensures selectedPostId == Some(id) && currentPage == PostDetail
      ensures SelectedAsWritten() ==
                if SharedPayload(search).Some? then SharedPostAsWritten(search) else FindById(posts, Some(id))
      ensures NoDecodablePayload() ==> Selected() == FindById(posts, Some(id))
      ensures NoDecodablePayload() && (exists i :: 0 <= i < |posts| && posts[i].id == id) ==> ShowsDetail()
    {
      selectedPostId := Some(id);
      currentPage := PostDetail;
      ShowsClicked(id);
    }

    method SetSearchQuery(q: string)
      modifies this
      ensures searchQuery == q
      ensures storage == old(storage) && posts == old(posts) && darkMode == old(darkMode) && search == old(search)
      ensures currentPage == old(currentPage) && selectedPostId == old(selectedPostId)
      ensures selectedCategory == old(selectedCategory)
    {
      searchQuery := q;
    }

    method SelectCategory(choice: string)
      modifies this
      ensures selectedCategory == choice
      ensures storage == old(storage) && posts == old(posts) && darkMode == old(darkMode) && search == old(search)
      ensures currentPage == old(currentPage) && selectedPostId == old(selectedPostId)
      ensures searchQuery == old(searchQuery)
    {
      selectedCategory := choice;
    }
  }
}
