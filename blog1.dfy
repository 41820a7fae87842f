/**
 * The post store and view state of the first app (blogcanhan/App.tsx): the `useLocalStorage`
 * hook, the derived filter and selection, the creation form and the view-state transitions.
 */
module Blog1 {
  import opened Wrappers
  import opened Types
  import opened Listing
  import opened Storage
  import Json
  import Decimal
  import C = Constants1

  const PostsKey: string := "blog_posts"
  const DarkModeKey: string := "dark_mode"

  // ----- the stored form of this app's posts: JSON, with each category as its run-time name -----

  /** The same post with another category value. */
  function Recategorize<A, B>(p: Post<A>, c: B): Post<B> {
    Post(p.id, p.title, p.content, p.excerpt, c, p.author, p.date, p.imageUrl, p.readTime)
  }

  function ToRaw(p: Post<Category>): Post<string> {
    Recategorize(p, CategoryName(p.category))
  }

  function ToRawAll(ps: seq<Post<Category>>): (r: seq<Post<string>>)
    ensures |r| == |ps| && forall i :: 0 <= i < |ps| ==> r[i] == ToRaw(ps[i])
  {
    if ps == [] then [] else [ToRaw(ps[0])] + ToRawAll(ps[1..])
  }

  /** Reads the categories back; fails when a stored category is not one of the five names. */
  function FromRawAll(ps: seq<Post<string>>): (r: Option<seq<Post<Category>>>)
    ensures r.Some? ==> ToRawAll(r.value) == ps
  {
    if ps == [] then Some([])
    else
      match (ParseCategory(ps[0].category), FromRawAll(ps[1..]))
      case (Some(c), Some(rest)) => Some([Recategorize(ps[0], c)] + rest)
      case _ => None
  }

  lemma {:induction false} FromRawAllOfToRawAll(ps: seq<Post<Category>>)
    ensures FromRawAll(ToRawAll(ps)) == Some(ps)
    decreases |ps|
  {
    if ps != [] {
      ParseCategoryName(ps[0].category);
      assert ToRawAll(ps)[1..] == ToRawAll(ps[1..]);
      FromRawAllOfToRawAll(ps[1..]);
      assert [ps[0]] + ps[1..] == ps;
    }
  }

  /** `JSON.stringify(posts)`, every post written with its keys in the record's order. */
  function EncodePosts(ps: seq<Post<Category>>): string {
    Json.EncodePosts(ToRawAll(ps))
  }

  /**
   * The key order of a post `handleSubmit` builds: the keys of the form's state, which the spread
   * copies first, then the three keys it adds.
   */
  function FormKeys(): seq<string> {
    ["title", "excerpt", "content", "category", "author", "imageUrl", "id", "date", "readTime"]
  }

  lemma FormKeysIsKeyOrder()
    ensures Json.IsKeyOrder(FormKeys())
  {
  }

  /** `JSON.stringify(posts)` where the `i`-th post keeps the key order `orders[i]` it was built in. */
  function EncodePostsIn(ps: seq<Post<Category>>, orders: seq<seq<string>>): string
    requires |orders| == |ps|
  {
    Json.EncodePostsIn(ToRawAll(ps), orders)
  }

  /** `JSON.parse(item)` read back as this app's posts. */
  function DecodePosts(s: string): Option<seq<Post<Category>>> {
    match Json.DecodePosts(s)
    case None => None
    case Some(raw) => FromRawAll(raw)
  }

  /** What `setValue` writes, the initialiser reads back. */
  lemma PostsRoundTrip(ps: seq<Post<Category>>)
    ensures DecodePosts(EncodePosts(ps)) == Some(ps)
  {
    Json.PostsRoundTrip(ToRawAll(ps));
    FromRawAllOfToRawAll(ps);
  }

  /** Whatever key order each post was built in, the text `setValue` writes reads back as the posts. */
  lemma PostsInRoundTrip(ps: seq<Post<Category>>, orders: seq<seq<string>>)
    requires |orders| == |ps| && Json.AllKeyOrders(orders)
    ensures DecodePosts(EncodePostsIn(ps, orders)) == Some(ps)
  {
    Json.PostsInRoundTrip(ToRawAll(ps), orders);
    FromRawAllOfToRawAll(ps);
  }

  // ----- useLocalStorage -----

  /**
   * The initial value of a slot: `item ? JSON.parse(item) : initialValue`, where a parse error is
   * caught and also gives `initialValue` (an empty string is falsy, like null).
   */
  function LoadSlot<T>(item: Option<string>, decode: string -> Option<T>, initial: T): (r: T)
    ensures item.Some? && item.value != "" && decode(item.value).Some? ==> r == decode(item.value).value
    ensures item.None? || item.value == "" || decode(item.value).None? ==> r == initial
  {
    match item
    case None => initial
    case Some(text) => if text == "" then initial else decode(text).GetOr(initial)
  }

  /** The posts are the seed or exactly what the stored text parses to. */
  function LoadPosts(storage: map<string, string>, today: string): (r: seq<Post<Category>>)
    ensures r == C.InitialPosts(today) || (PostsKey in storage && DecodePosts(storage[PostsKey]) == Some(r))
  {
    LoadSlot(GetItem(storage, PostsKey), DecodePosts, C.InitialPosts(today))
  }

  /** The theme is dark exactly when the slot holds the text `true`. */
  function LoadDarkMode(storage: map<string, string>): (r: bool)
    ensures r <==> DarkModeKey in storage && storage[DarkModeKey] == "true"
  {
    LoadSlot(GetItem(storage, DarkModeKey), Json.DecodeBool, false)
  }

  /**
   * Initialisation yields the stored list when the slot is non-empty and parses, and the seed
   * otherwise; it never fails.
   */
  lemma LoadPostsCases(storage: map<string, string>, today: string)
    ensures PostsKey in storage && storage[PostsKey] != "" && DecodePosts(storage[PostsKey]).Some? ==>
              LoadPosts(storage, today) == DecodePosts(storage[PostsKey]).value
    ensures !(PostsKey in storage && storage[PostsKey] != "" && DecodePosts(storage[PostsKey]).Some?) ==>
              LoadPosts(storage, today) == C.InitialPosts(today)
  {
  }

  /** Reloading after a write of `ps` gives `ps` back. */
  lemma LoadAfterWrite(storage: map<string, string>, ps: seq<Post<Category>>, today: string)
    ensures LoadPosts(storage[PostsKey := EncodePosts(ps)], today) == ps
  {
    PostsRoundTrip(ps);
    assert EncodePosts(ps) != "" by {
      if ps != [] {
        assert EncodePosts(ps)[0] == '[';
      }
    }
  }

  /**
   * After a post made by the form is added in front of posts built in the record's key order, the
   * text the app writes reloads as that list.
   */
  lemma LoadAfterCreate(storage: map<string, string>, form: Form, now: nat, today: string, ps: seq<Post<Category>>)
    ensures var created := [NewPost(form, now, today)] + ps;
            var text := EncodePostsIn(created, [FormKeys()] + Json.RecordOrders(|ps|));
            LoadPosts(storage[PostsKey := text], today) == created
  {
    var created := [NewPost(form, now, today)] + ps;
    var orders := [FormKeys()] + Json.RecordOrders(|ps|);
    FormKeysIsKeyOrder();
    Json.PostKeysIsKeyOrder();
    PostsInRoundTrip(created, orders);
    var text := EncodePostsIn(created, orders);
    assert text[0] == '[';
  }

  // ----- the filter (lines 363-379) -----

  /** The `categoryMap` the filter builds: category to Vietnamese label. */
  function FilterLabel(c: Category): string {
    match c
    case Technology => "Công nghệ"
    case Lifestyle => "Đời sống"
    case Travel => "Du lịch"
    case Food => "Ẩm thực"
    case Design => "Thiết kế"
  }

  predicate MatchesCategory(c: Category, selected: string) {
    selected == C.AllLabel || FilterLabel(c) == selected
  }

  /**
   * `filteredPosts`: the posts, in order, whose title or content contains the query (ignoring
   * case) and whose category's label is the selected one, unless the sentinel is selected.
   */
  function FilteredPosts(posts: seq<Post<Category>>, query: string, selected: string): (r: seq<Post<Category>>)
    ensures IsSubsequence(r, posts)
    ensures forall p :: p in r <==> p in posts && MatchesSearch(p, query) && MatchesCategory(p.category, selected)
  {
    Filter(posts, (p: Post<Category>) => MatchesSearch(p, query) && MatchesCategory(p.category, selected))
  }

  /** The filter's local table agrees with `CATEGORY_MAP` on all five categories. */
  lemma FilterLabelAgrees(c: Category)
    ensures CategoryName(c) in C.CategoryMap() && FilterLabel(c) == C.CategoryMap()[CategoryName(c)]
  {
  }

  /** With the query `''` and the sentinel, as "clear all filters" sets them, every post is shown. */
  lemma ClearedFiltersShowAll(posts: seq<Post<Category>>)
    ensures FilteredPosts(posts, "", C.AllLabel) == posts
  {
    var keep := (p: Post<Category>) => MatchesSearch(p, "") && MatchesCategory(p.category, C.AllLabel);
    forall i | 0 <= i < |posts| ensures keep(posts[i]) {
      EmptyQueryMatches(posts[i]);
    }
    FilterKeepsAll(posts, keep);
  }

  /** Each label filter selects exactly the posts of one category. */
  lemma LabelSelectsItsCategory(posts: seq<Post<Category>>, query: string, c: Category)
    ensures forall p :: p in FilteredPosts(posts, query, FilterLabel(c)) <==>
                        p in posts && MatchesSearch(p, query) && p.category == c
  {
  }

  /** A label that no category has selects nothing: an empty list, not an error. */
  lemma UnknownLabelSelectsNothing(posts: seq<Post<Category>>, query: string, selected: string)
    requires selected !in C.Categories()
    ensures FilteredPosts(posts, query, selected) == []
  {
    var r := FilteredPosts(posts, query, selected);
    assert forall c: Category :: FilterLabel(c) in C.Categories();
  }

  /** The seed (category Design) is shown under the filter 'Thiết kế'. */
  lemma SeedShownUnderDesign(today: string)
    ensures FilteredPosts(C.InitialPosts(today), "", "Thiết kế") == C.InitialPosts(today)
  {
    var seed := C.InitialPosts(today);
    EmptyQueryMatches(seed[0]);
    FilterCons(seed[0], [], (p: Post<Category>) => MatchesSearch(p, "") && MatchesCategory(p.category, "Thiết kế"));
    assert [seed[0]] + [] == seed;
  }

  // ----- the creation form (lines 257-276) -----

  datatype Form = Form(title: string, excerpt: string, content: string, category: Category,
                       author: string, imageUrl: string)

  /** The form's initial state. */
  function InitialForm(): Form {
    Form("", "", "", Design, "Tác giả mới", "https://images.unsplash.com/photo-1499750310107-5fef28a66643?q=80&w=1000")
  }

  /**
   * `handleSubmit`: the form's fields plus an id from `Date.now()` (the milliseconds `now`), the
   * formatted date `today` and a fixed read time.
   */
  function NewPost(form: Form, now: nat, today: string): (p: Post<Category>)
    ensures p.id == Decimal.NatToString(now) && p.date == today && p.readTime == "5 phút đọc"
    ensures p.title == form.title && p.excerpt == form.excerpt && p.content == form.content
    ensures p.category == form.category && p.author == form.author && p.imageUrl == form.imageUrl
  {
    Post(Decimal.NatToString(now), form.title, form.content, form.excerpt, form.category, form.author,
         today, form.imageUrl, "5 phút đọc")
  }

  /**
   * Ids of posts created at different milliseconds differ; two posts created within the same
   * millisecond get the same id.
   */
  lemma NewPostIds(f1: Form, f2: Form, t1: nat, t2: nat, today: string)
    ensures NewPost(f1, t1, today).id == NewPost(f2, t2, today).id <==> t1 == t2
  {
    if NewPost(f1, t1, today).id == NewPost(f2, t2, today).id {
      Decimal.NatToStringInjective(t1, t2);
    }
  }

  /** A new post is found by a search for its own title under its own category label. */
  lemma NewPostIsFound(posts: seq<Post<Category>>, p: Post<Category>)
    ensures p in FilteredPosts([p] + posts, p.title, FilterLabel(p.category))
    ensures p in FilteredPosts([p] + posts, p.title, C.AllLabel)
  {
    TitleMatchesItself(p, p.title);
  }

  // ----- the app's state -----

  class App {
    var storage: map<string, string>
    var posts: seq<Post<Category>>
    var darkMode: bool
    var currentPage: Page
    var selectedPostId: Option<string>
    var searchQuery: string
    var selectedCategory: string

    /** The state after the first render: both slots loaded, home page, no selection or filter. */
    constructor (stored: map<string, string>, today: string)
      ensures storage == stored
      ensures posts == LoadPosts(stored, today) && darkMode == LoadDarkMode(stored)
      ensures currentPage == Home && selectedPostId == None
      ensures searchQuery == "" && selectedCategory == C.AllLabel
    {
      storage := stored;
      posts := LoadPosts(stored, today);
      darkMode := LoadDarkMode(stored);
      currentPage := Home;
      selectedPostId := None;
      searchQuery := "";
      selectedCategory := C.AllLabel;
    }

    /** The slot under `blog_posts` holds exactly the posts in memory. */
    predicate PostsSynced()
      reads this
    {
      GetItem(storage, PostsKey) == Some(EncodePosts(posts))
    }

    function Visible(): seq<Post<Category>>
      reads this
    {
      FilteredPosts(posts, searchQuery, selectedCategory)
    }

    /** `selectedPost` (lines 393-396). */
    function Selected(): Option<Post<Category>>
      reads this
    {
      FindById(posts, selectedPostId)
    }

    /** The detail view renders only on the detail page and only when the selected post exists. */
    predicate ShowsDetail()
      reads this
    {
      currentPage == PostDetail && Selected().Some?
    }

    /**
     * `setValue` of the posts slot: memory takes `v`, then `setItem` writes its JSON; when the write
     * throws (storage full) the error is caught and only memory has changed.
     */
    method SetPosts(v: seq<Post<Category>>, quotaExceeded: bool)
      modifies this
      ensures posts == v
      ensures storage == if quotaExceeded then old(storage) else old(storage)[PostsKey := EncodePosts(v)]
      ensures !quotaExceeded ==> PostsSynced()
      ensures darkMode == old(darkMode) && currentPage == old(currentPage)
      ensures selectedPostId == old(selectedPostId)
      ensures searchQuery == old(searchQuery) && selectedCategory == old(selectedCategory)
    {
      posts := v;
      if !quotaExceeded {
        storage := storage[PostsKey := EncodePosts(v)];
      }
    }

    /** `setValue` of the theme slot. */
    method SetDarkMode(b: bool, quotaExceeded: bool)
      modifies this
      ensures darkMode == b
      ensures storage == if quotaExceeded then old(storage) else old(storage)[DarkModeKey := Json.EncodeBool(b)]
      ensures !quotaExceeded ==> LoadDarkMode(storage) == b
      ensures posts == old(posts) && currentPage == old(currentPage)
      ensures selectedPostId == old(selectedPostId)
      ensures searchQuery == old(searchQuery) && selectedCategory == old(selectedCategory)
    {
      darkMode := b;
      if !quotaExceeded {
        storage := storage[DarkModeKey := Json.EncodeBool(b)];
      }
    }

    /** The theme button. */
    method ToggleTheme(quotaExceeded: bool)
      modifies this
      ensures darkMode == !old(darkMode)
      ensures storage == if quotaExceeded then old(storage) else old(storage)[DarkModeKey := Json.EncodeBool(darkMode)]
      ensures posts == old(posts) && currentPage == old(currentPage)
      ensures selectedPostId == old(selectedPostId)
      ensures searchQuery == old(searchQuery) && selectedCategory == old(selectedCategory)
    {
      SetDarkMode(!darkMode, quotaExceeded);
    }

    /** `handlePostClick`: select the post and open the detail page; nothing else changes. */
    method HandlePostClick(id: string)
      modifies this
      ensures selectedPostId == Some(id) && currentPage == PostDetail
      ensures Selected() == FindById(posts, Some(id))
      ensures (exists i :: 0 <= i < |posts| && posts[i].id == id) ==> ShowsDetail()
      ensures storage == old(storage) && posts == old(posts) && darkMode == old(darkMode)
      ensures searchQuery == old(searchQuery) && selectedCategory == old(selectedCategory)
    {
      selectedPostId := Some(id);
      currentPage := PostDetail;
    }

    /**
     * `handleCreatePost`: the new post goes in front of the old ones, the whole list is written
     * back, and the blog page opens.
     */
    method HandleCreatePost(p: Post<Category>, quotaExceeded: bool)
      modifies this
      ensures posts == [p] + old(posts)
      ensures |posts| == |old(posts)| + 1 && posts[0] == p && posts[1..] == old(posts)
      ensures storage == if quotaExceeded then old(storage) else old(storage)[PostsKey := EncodePosts(posts)]
      ensures !quotaExceeded ==> PostsSynced()
      ensures currentPage == Blog
      ensures darkMode == old(darkMode) && selectedPostId == old(selectedPostId)
      ensures searchQuery == old(searchQuery) && selectedCategory == old(selectedCategory)
    {
      SetPosts([p] + posts, quotaExceeded);
      currentPage := Blog;
    }

    /**
     * Submitting the creation form (the browser submits only when title, excerpt and content are
     * non-empty): the post `handleSubmit` builds is handed to `handleCreatePost`.
     */
    method SubmitCreatePost(form: Form, now: nat, today: string, quotaExceeded: bool)
      requires form.title != "" && form.excerpt != "" && form.content != ""
      modifies this
      ensures posts == [NewPost(form, now, today)] + old(posts)
      ensures storage == if quotaExceeded then old(storage) else old(storage)[PostsKey := EncodePosts(posts)]
      ensures currentPage == Blog
      ensures darkMode == old(darkMode) && selectedPostId == old(selectedPostId)
      ensures searchQuery == old(searchQuery) && selectedCategory == old(selectedCategory)
    {
      HandleCreatePost(NewPost(form, now, today), quotaExceeded);
    }

    /** "Clear all filters": empty query and the sentinel, after which every post is visible. */
    method ClearFilters()
      modifies this
      ensures searchQuery == "" && selectedCategory == C.AllLabel
      ensures Visible() == posts
      ensures storage == old(storage) && posts == old(posts) && darkMode == old(darkMode)
      ensures currentPage == old(currentPage) && selectedPostId == old(selectedPostId)
    {
      searchQuery := "";
      selectedCategory := C.AllLabel;
      ClearedFiltersShowAll(posts);
    }

    /** `setCurrentPage`, as the navigation bar and the page buttons call it; the selection stays. */
    method SetPage(p: Page)
      modifies this
      ensures currentPage == p
      ensures storage == old(storage) && posts == old(posts) && darkMode == old(darkMode)
      ensures selectedPostId == old(selectedPostId)
      ensures searchQuery == old(searchQuery) && selectedCategory == old(selectedCategory)
    {
      currentPage := p;
    }

    /** Typing in the search box. */
    method SetSearchQuery(q: string)
      modifies this
      ensures searchQuery == q
      ensures storage == old(storage) && posts == old(posts) && darkMode == old(darkMode)
      ensures currentPage == old(currentPage) && selectedPostId == old(selectedPostId)
      ensures selectedCategory == old(selectedCategory)
    {
      searchQuery := q;
    }

    /** Clicking a category button. */
    method SelectCategory(choice: string)
      modifies this
      ensures selectedCategory == choice
      ensures storage == old(storage) && posts == old(posts) && darkMode == old(darkMode)
      ensures currentPage == old(currentPage) && selectedPostId == old(selectedPostId)
      ensures searchQuery == old(searchQuery)
    {
      selectedCategory := choice;
    }
  }
}
