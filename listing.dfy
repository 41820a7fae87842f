/**
 * The list derivations both apps compute on every render: `Array.prototype.filter` with the
 * search predicate, and `Array.prototype.find` by post id.
 */
module Listing {
  import opened Wrappers
  import opened Types
  import opened Text

  /** `a` is `b` with some elements left out and nothing added or moved. */
  ghost predicate IsSubsequence<T>(a: seq<T>, b: seq<T>)
    decreases |b|
  {
    if a == [] then true
    else if b == [] then false
    else if a[0] == b[0] && IsSubsequence(a[1..], b[1..]) then true
    else IsSubsequence(a, b[1..])
  }

  /**
   * `s.filter(keep)`: the elements of `s` that `keep` accepts, in their order, each as often as it
   * occurs in `s`.
   */
  function Filter<T(!new)>(s: seq<T>, keep: T -> bool): (r: seq<T>)
    ensures IsSubsequence(r, s)
    ensures forall x :: multiset(r)[x] == if keep(x) then multiset(s)[x] else 0
    ensures forall x :: x in r <==> x in s && keep(x)
  {
    if s == [] then []
    else
      var tail := Filter(s[1..], keep);
      assert s == [s[0]] + s[1..];
      if keep(s[0]) then [s[0]] + tail else
        SubsequenceDropFirst(tail, s);
        tail
  }

  lemma SubsequenceDropFirst<T>(a: seq<T>, b: seq<T>)
    requires b != [] && IsSubsequence(a, b[1..])
    ensures IsSubsequence(a, b)
  {
  }

  /** Every sequence is a subsequence of itself. */
  lemma {:induction false} SubsequenceReflexive<T>(s: seq<T>)
    ensures IsSubsequence(s, s)
    decreases |s|
  {
    if s != [] {
      SubsequenceReflexive(s[1..]);
    }
  }

  /** When `keep` accepts every element, filtering changes nothing. */
  lemma {:induction false} FilterKeepsAll<T(!new)>(s: seq<T>, keep: T -> bool)
    requires forall i :: 0 <= i < |s| ==> keep(s[i])
    ensures Filter(s, keep) == s
    decreases |s|
  {
    if s != [] {
      FilterKeepsAll(s[1..], keep);
    }
  }

  /** Filtering a list with an element put in front. */
  lemma FilterCons<T(!new)>(x: T, s: seq<T>, keep: T -> bool)
    ensures Filter([x] + s, keep) == if keep(x) then [x] + Filter(s, keep) else Filter(s, keep)
  {
    assert ([x] + s)[1..] == s;
  }

  /**
   * `s.find(p => p.id === id)`: the first post whose id is `id`, or nothing when `id` is null or
   * no post has it.
   */
  function FindById<C(==)>(s: seq<Post<C>>, id: Option<string>): (r: Option<Post<C>>)
    ensures id.None? ==> r.None?
    ensures r.None? ==> forall i :: 0 <= i < |s| ==> Some(s[i].id) != id
    ensures r.Some? ==> exists k :: 0 <= k < |s| && s[k] == r.value && Some(s[k].id) == id &&
                                    forall j :: 0 <= j < k ==> Some(s[j].id) != id
  {
    if s == [] || id.None? then None
    else if Some(s[0].id) == id then Some(s[0])
    else
      var r := FindById(s[1..], id);
      if r.Some? then
        var k :| 0 <= k < |s[1..]| && s[1..][k] == r.value && Some(s[1..][k].id) == id &&
                 forall j :: 0 <= j < k ==> Some(s[1..][j].id) != id;
        assert s[k + 1] == r.value && forall j :: 0 <= j < k + 1 ==> Some(s[j].id) != id;
        r
      else r
  }

  /**
   * The search half of both filters: the lower-cased query occurs in the lower-cased title or in
   * the lower-cased content.
   */
  predicate MatchesSearch<C>(p: Post<C>, query: string) {
    Includes(Lower(p.title), Lower(query)) || Includes(Lower(p.content), Lower(query))
  }

  /** The empty query matches every post. */
  lemma EmptyQueryMatches<C>(p: Post<C>)
    ensures MatchesSearch(p, "")
  {
    IncludesEmpty(Lower(p.title));
  }

  /** A post matches a search for its own title, whatever its case. */
  lemma TitleMatchesItself<C>(p: Post<C>, query: string)
    requires Lower(query) == Lower(p.title)
    ensures MatchesSearch(p, query)
  {
    IncludesSelf(Lower(p.title));
  }
}
