/** The data types declared in blogcanhan/types.ts. */
module Types {
  import opened Wrappers

  /** The closed set of internal (English) category identifiers. */
  datatype Category = Technology | Lifestyle | Travel | Food | Design

  /** The closed set of pages the single-page app can show. */
  datatype Page = Home | Blog | About | Contact | PostDetail | CreatePost

  /**
   * A blog post with its nine fields. The type of `category` is a parameter: the first app
   * stores a `Category`, the second stores the Vietnamese display label as a plain string.
   */
  datatype Post<C> = Post(
    id: string,
    title: string,
    content: string,
    excerpt: string,
    category: C,
    author: string,
    date: string,
    imageUrl: string,
    readTime: string)

  /** `Category | 'All'`, the declared type of the selected category filter. */
  datatype CategoryOrAll = Only(category: Category) | All

  /** The declared application state record. */
  datatype AppState = AppState(
    posts: seq<Post<Category>>,
    darkMode: bool,
    currentPage: Page,
    selectedPostId: Option<string>,
    searchQuery: string,
    selectedCategory: CategoryOrAll)

  /** The string literal that represents each category at run time (and in JSON). */
  function CategoryName(c: Category): string {
    match c
    case Technology => "Technology"
    case Lifestyle => "Lifestyle"
    case Travel => "Travel"
    case Food => "Food"
    case Design => "Design"
  }

  /** Reads a category back from its run-time name; any other string is not a `Category`. */
  function ParseCategory(s: string): (r: Option<Category>)
    ensures r.Some? ==> CategoryName(r.value) == s
    ensures r.None? ==> forall c: Category :: CategoryName(c) != s
  {
    if s == "Technology" then Some(Technology)
    else if s == "Lifestyle" then Some(Lifestyle)
    else if s == "Travel" then Some(Travel)
    else if s == "Food" then Some(Food)
    else if s == "Design" then Some(Design)
    else None
  }

  lemma ParseCategoryName(c: Category)
    ensures ParseCategory(CategoryName(c)) == Some(c)
  {
  }

  function AllCategories(): seq<Category> {
    [Technology, Lifestyle, Travel, Food, Design]
  }

  function AllPages(): seq<Page> {
    [Home, Blog, About, Contact, PostDetail, CreatePost]
  }

  /** `Category` has exactly five values. */
  lemma CategoryIsClosed(c: Category)
    ensures c in AllCategories()
    ensures |AllCategories()| == 5
    ensures forall i, j :: 0 <= i < j < 5 ==> AllCategories()[i] != AllCategories()[j]
  {
  }

  /** `Page` has exactly six values. */
  lemma PageIsClosed(p: Page)
    ensures p in AllPages()
    ensures |AllPages()| == 6
    ensures forall i, j :: 0 <= i < j < 6 ==> AllPages()[i] != AllPages()[j]
  {
  }
}
