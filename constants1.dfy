/** The literal data of blogcanhan/constants.ts. */
module Constants1 {
  import opened Types

  /** The sentinel label of the "all categories" filter. */
  const AllLabel: string := "Tất cả"

  const SeedTitle: string := "Chào mừng bạn đến với ModernBlog"
  const SeedExcerpt: string :=
    "Đây là bài viết đầu tiên của bạn. " +
    "Hãy bắt đầu chia sẻ những ý tưởng tuyệt vời của mình với mọi người ngay hôm nay!"
  const SeedContent: string :=
    "Chào mừng bạn đến với nền tảng blog cá nhân hiện đại. " +
    "Tại đây, " +
    "bạn có thể tự do sáng tạo, " +
    "viết lách và chia sẻ kiến thức của mình về Công nghệ, " +
    "Đời sống, " +
    "Du lịch và nhiều chủ đề khác.\n\n" +
    "Hệ thống hỗ trợ Markdown cơ bản, " +
    "chế độ sáng/tối và giao diện tối ưu cho mọi thiết bị."
  const SeedImageUrl: string :=
    "https://images.unsplash.com/photo-1499750310107-5fef28a66643?q=80&w=1000&auto=format&fit=crop"

  /**
   * The one-post seed collection. Its date is whatever `toLocaleDateString` gives on first load,
   * so it is a parameter.
   */
  function InitialPosts(today: string): seq<Post<Category>> {
    [Post("1", SeedTitle, SeedContent, SeedExcerpt, Design, "Quản trị viên", today, SeedImageUrl,
          "1 phút đọc")]
  }

  /** The filter buttons, sentinel first. */
  function Categories(): seq<string> {
    [AllLabel, "Công nghệ", "Đời sống", "Du lịch", "Ẩm thực", "Thiết kế"]
  }

  /** Display label of each category name, and of `'All'`. */
  function CategoryMap(): map<string, string> {
    map["Technology" := "Công nghệ", "Lifestyle" := "Đời sống", "Travel" := "Du lịch",
        "Food" := "Ẩm thực", "Design" := "Thiết kế", "All" := AllLabel]
  }

  /** The seed holds exactly one post, with id '1', in the category Design. */
  lemma SeedShape(today: string)
    ensures |InitialPosts(today)| == 1
    ensures InitialPosts(today)[0].id == "1" && InitialPosts(today)[0].category == Design
  {
  }

  /** Six distinct filter labels, the sentinel first. */
  lemma CategoriesShape()
    ensures |Categories()| == 6 && Categories()[0] == AllLabel
    ensures forall i, j :: 0 <= i < j < |Categories()| ==> Categories()[i] != Categories()[j]
  {
  }

  /**
   * Every category name has a label; the labels of the five categories are pairwise different and
   * are exactly the labels after the sentinel; `'All'` maps to the sentinel.
   */
  lemma CategoryMapShape()
    ensures forall c: Category :: CategoryName(c) in CategoryMap()
    ensures forall c, d: Category :: CategoryMap()[CategoryName(c)] == CategoryMap()[CategoryName(d)] ==> c == d
    ensures forall l :: l in Categories()[1..] <==> exists c: Category :: CategoryMap()[CategoryName(c)] == l
    ensures "All" in CategoryMap() && CategoryMap()["All"] == AllLabel
  {
    forall l | l in Categories()[1..] ensures exists c: Category :: CategoryMap()[CategoryName(c)] == l {
      var k :| 1 <= k < 6 && Categories()[k] == l;
      var c := AllCategories()[k - 1];
      assert CategoryMap()[CategoryName(c)] == l;
    }
  }
}
