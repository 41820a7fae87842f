/**
 * How the two apps' filters relate. The first app stores a post's category as its English name
 * and maps it to a Vietnamese label before comparing (blogcanhan/App.tsx:368-376); the second
 * stores the label itself and compares it raw (blogcanhan2/App.tsx:172).
 */
module Variants {
  import opened Types
  import opened Listing
  import B1 = Blog1
  import B2 = Blog2
  import C1 = Constants1
  import C2 = Constants2

  /** A first-app post with its category written as the label, the way the second app stores it. */
  function Relabel(p: Post<Category>): Post<string> {
    B1.Recategorize(p, B1.FilterLabel(p.category))
  }

  function RelabelAll(ps: seq<Post<Category>>): (r: seq<Post<string>>)
    ensures |r| == |ps| && forall i :: 0 <= i < |ps| ==> r[i] == Relabel(ps[i])
  {
    if ps == [] then [] else [Relabel(ps[0])] + RelabelAll(ps[1..])
  }

  lemma RelabelAllCons(p: Post<Category>, ps: seq<Post<Category>>)
    ensures RelabelAll([p] + ps) == [Relabel(p)] + RelabelAll(ps)
  {
    assert RelabelAll([p] + ps) == [Relabel(p)] + RelabelAll(ps);
  }

  /** Relabelled, the second app's raw comparison keeps exactly the posts the first app's table keeps. */
  lemma {:induction false} FiltersAgree(posts: seq<Post<Category>>, query: string, selected: string)
    ensures B2.FilteredPosts(RelabelAll(posts), query, selected) == RelabelAll(B1.FilteredPosts(posts, query, selected))
    decreases |posts|
  {
    if posts != [] {
      var x := posts[0];
      var rest := posts[1..];
      assert posts == [x] + rest;
      var k1 := (p: Post<Category>) => MatchesSearch(p, query) && B1.MatchesCategory(p.category, selected);
      var k2 := (p: Post<string>) => MatchesSearch(p, query) && B2.MatchesCategory(p.category, selected);
      FilterCons(x, rest, k1);
      RelabelAllCons(x, rest);
      FilterCons(Relabel(x), RelabelAll(rest), k2);
      assert k2(Relabel(x)) == k1(x);
      FiltersAgree(rest, query, selected);
      if k1(x) {
        RelabelAllCons(x, B1.FilteredPosts(rest, query, selected));
      }
    }
  }

  /**
   * Posts whose category is stored as an English name, as the first app stores them, match no
   * label filter under the second app's raw comparison.
   */
  lemma EnglishNamesMatchNoLabel(posts: seq<Post<string>>, query: string, selected: string)
    requires forall i :: 0 <= i < |posts| ==> ParseCategory(posts[i].category).Some?
    requires selected in C2.Categories()[1..]
    ensures B2.FilteredPosts(posts, query, selected) == []
  {
    var r := B2.FilteredPosts(posts, query, selected);
    assert forall c: Category :: CategoryName(c) !in C2.Categories()[1..];
    C2.CategoriesShape();
    assert forall p :: p in r ==> p in posts && p.category == selected;
  }

  /** The two apps show the same six filter buttons, the sentinel first. */
  lemma CategoriesAgree()
    ensures C1.Categories() == C2.Categories() && C1.AllLabel == C2.AllLabel
  {
  }
}
