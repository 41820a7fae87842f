/** The literal data of blogcanhan2/constants.ts. */
module Constants2 {
  import opened Types

  const AllLabel: string := "Tất cả"

  const SeedTitle: string := "Chào mừng bạn đến với MyBlog!"
  const SeedExcerpt: string := "Hãy bắt đầu hành trình sáng tạo của bạn ngay hôm nay."
  const SeedContent: string :=
    "Chào bạn!\n\n" +
    "Đây là MyBlog - nơi bạn có thể lưu trữ những suy nghĩ và kiến thức của mình một cách tối giản nhất.\n\n" +
    "Lưu ý quan trọng: " +
    "Ứng dụng này sử dụng LocalStorage để lưu bài viết. " +
    "Điều này có nghĩa là mọi dữ liệu bạn đăng tải sẽ CHỈ nằm trên trình duyệt của máy tính này. " +
    "Nếu bạn xóa lịch sử trình duyệt hoặc đổi sang máy khác, " +
    "các bài viết sẽ không xuất hiện.\n\n" +
    "Hãy thử nhấn nút \"Viết bài\" để đăng câu chuyện đầu tiên và tải lên một tấm ảnh thật đẹp nhé!"
  const SeedImageUrl: string :=
    "https://images.unsplash.com/photo-1499750310107-5fef28a66643?q=80&w=1000&auto=format&fit=crop"

  /** The one-post seed collection; its category is stored as the display label. */
  function InitialPosts(today: string): seq<Post<string>> {
    [Post("welcome-myblog", SeedTitle, SeedContent, SeedExcerpt, "Thiết kế", "MyBlog Team", today,
          SeedImageUrl, "1 phút đọc")]
  }

  function Categories(): seq<string> {
    [AllLabel, "Công nghệ", "Đời sống", "Du lịch", "Ẩm thực", "Thiết kế"]
  }

  /** The seed holds exactly one post, with id 'welcome-myblog' and a non-sentinel category label. */
  lemma SeedShape(today: string)
    ensures |InitialPosts(today)| == 1
    ensures InitialPosts(today)[0].id == "welcome-myblog"
    ensures InitialPosts(today)[0].category in Categories()[1..]
  {
    assert Categories()[5] == "Thiết kế";
  }

  lemma CategoriesShape()
    ensures |Categories()| == 6 && Categories()[0] == AllLabel
    ensures forall i, j :: 0 <= i < j < |Categories()| ==> Categories()[i] != Categories()[j]
  {
  }
}
