/** The selection logic of react/src/AllBlogs.jsx: the search and category
    filter over the fetched posts, and the list of category buttons. */
module AllBlogs {
  import opened Text
  import opened Cards

  /** `title?.toLowerCase().includes(term) || description?.toLowerCase().includes(term)`
      with the term lowercased too. */
  predicate MatchesSearch(p: Card, searchTerm: string)
    ensures MatchesSearch(p, searchTerm) ==> p.title.Some? || p.description.Some?
    ensures MatchesSearch(p, searchTerm) ==>
              || (p.title.Some? && |searchTerm| <= |p.title.value|)
              || (p.description.Some? && |searchTerm| <= |p.description.value|)
  {
    || (p.title.Some? && Contains(Lower(p.title.value), Lower(searchTerm)))
    || (p.description.Some? && Contains(Lower(p.description.value), Lower(searchTerm)))
  }

  /** `selectedCategory === "all" || category?.toLowerCase() === selectedCategory`. */
  predicate MatchesCategory(p: Card, selectedCategory: string)
    ensures !IsLower(selectedCategory) ==> !MatchesCategory(p, selectedCategory)
    ensures p.category.None? ==> (MatchesCategory(p, selectedCategory) <==> selectedCategory == "all")
  {
    selectedCategory == "all" || (p.category.Some? && Lower(p.category.value) == selectedCategory)
  }

  predicate Keep(p: Card, searchTerm: string, selectedCategory: string) {
    MatchesSearch(p, searchTerm) && MatchesCategory(p, selectedCategory)
  }

  /** r is obtained from s by deleting elements, order kept. */
  predicate IsSubsequence<T(==)>(r: seq<T>, s: seq<T>)
    decreases |s|
  {
    if r == [] then true
    else if s == [] then false
    else if r[0] == s[0] then IsSubsequence(r[1..], s[1..])
    else IsSubsequence(r, s[1..])
  }

  /** filteredPosts. */
  function FilteredPosts(posts: seq<Card>, searchTerm: string, selectedCategory: string): (r: seq<Card>)
    ensures |r| <= |posts|
    ensures forall p :: p in r <==> p in posts && Keep(p, searchTerm, selectedCategory)
  {
    if posts == [] then []
    else
      var rest := FilteredPosts(posts[1..], searchTerm, selectedCategory);
      if Keep(posts[0], searchTerm, selectedCategory) then [posts[0]] + rest else rest
  }

  /** The filter keeps the fetched order: its result is a subsequence of the posts. */
  lemma {:induction false} FilteredIsSubsequence(posts: seq<Card>, searchTerm: string, selectedCategory: string)
    ensures IsSubsequence(FilteredPosts(posts, searchTerm, selectedCategory), posts)
  {
    if posts != [] {
      var r := FilteredPosts(posts, searchTerm, selectedCategory);
      FilteredIsSubsequence(posts[1..], searchTerm, selectedCategory);
      if !Keep(posts[0], searchTerm, selectedCategory) {
        SubsequenceOfTail(r, posts);
      }
    }
  }

  lemma SubsequenceOfTail<T>(r: seq<T>, s: seq<T>)
    requires s != [] && IsSubsequence(r, s[1..])
    ensures IsSubsequence(r, s)
  {
    SubsequenceCons(r, s[1..], s[0]);
    assert [s[0]] + s[1..] == s;
  }

  /** Putting an element in front keeps a subsequence a subsequence. */
  lemma {:induction false} SubsequenceCons<T>(r: seq<T>, t: seq<T>, x: T)
    requires IsSubsequence(r, t)
    ensures IsSubsequence(r, [x] + t)
    decreases |t|, 1
  {
    assert ([x] + t)[1..] == t;
    if r != [] && r[0] == x {
      SubsequenceDropHead(r, t);
    }
  }

  /** Dropping the first element keeps a subsequence a subsequence. */
  lemma {:induction false} SubsequenceDropHead<T>(r: seq<T>, t: seq<T>)
    requires r != [] && IsSubsequence(r, t)
    ensures IsSubsequence(r[1..], t)
    decreases |t|, 0
  {
    if r[0] == t[0] {
      SubsequenceCons(r[1..], t[1..], t[0]);
    } else {
      SubsequenceDropHead(r, t[1..]);
      SubsequenceCons(r[1..], t[1..], t[0]);
    }
    assert [t[0]] + t[1..] == t;
  }

  /** With "all" selected the category test passes for every post: the
      filter is the search alone. */
  lemma {:induction false} AllKeepsEverySearchHit(posts: seq<Card>, searchTerm: string)
    ensures FilteredPosts(posts, searchTerm, "all") == SearchOnly(posts, searchTerm)
  {
    if posts != [] {
      AllKeepsEverySearchHit(posts[1..], searchTerm);
    }
  }

  function SearchOnly(posts: seq<Card>, searchTerm: string): (r: seq<Card>)
    ensures forall p :: p in r <==> p in posts && MatchesSearch(p, searchTerm)
  {
    if posts == [] then []
    else (if MatchesSearch(posts[0], searchTerm) then [posts[0]] else []) + SearchOnly(posts[1..], searchTerm)
  }

  /** With a named category selected, a post survives only if its lowercased
      category is that name; a post without a category never does. */
  lemma NamedCategoryFilter(posts: seq<Card>, searchTerm: string, selectedCategory: string, p: Card)
    requires selectedCategory != "all"
    requires p in FilteredPosts(posts, searchTerm, selectedCategory)
    ensures p.category.Some? && Lower(p.category.value) == selectedCategory
  {
  }

  /** An empty search term matches exactly the posts that have a title or a description. */
  lemma EmptySearchMatchesTitled(p: Card)
    ensures MatchesSearch(p, "") <==> p.title.Some? || p.description.Some?
  {
    if p.title.Some? { ContainsEmpty(Lower(p.title.value)); }
    if p.description.Some? { ContainsEmpty(Lower(p.description.value)); }
  }

  /** The search is case-insensitive: terms equal up to ASCII case select the same posts. */
  lemma {:induction false} SearchIgnoresCase(posts: seq<Card>, t1: string, t2: string, selectedCategory: string)
    requires SameIgnoringCase(t1, t2)
    ensures FilteredPosts(posts, t1, selectedCategory) == FilteredPosts(posts, t2, selectedCategory)
  {
    if posts != [] {
      SearchIgnoresCase(posts[1..], t1, t2, selectedCategory);
    }
  }

  /** `posts.map(p => p.category?.toLowerCase()).filter(Boolean)`: the
      lowercased categories, absent and empty ones dropped. */
  function LoweredCategories(posts: seq<Card>): (r: seq<string>)
    ensures forall i :: 0 <= i < |r| ==> r[i] != "" && IsLower(r[i])
    ensures forall c :: c in r <==> c != "" && exists p :: p in posts && p.category.Some? && Lower(p.category.value) == c
  {
    if posts == [] then []
    else
      var rest := LoweredCategories(posts[1..]);
      match posts[0].category
      case None => rest
      case Some(c) =>
        LowerIsLower(c);
        if Lower(c) == "" then rest else [Lower(c)] + rest
  }

  /** `map` and `filter` keep the posts' order: the category of a post
      fetched last comes after all the others, or is dropped. */
  lemma {:induction false} LoweredCategoriesSnoc(posts: seq<Card>, p: Card)
    ensures LoweredCategories(posts + [p])
              == LoweredCategories(posts)
                 + (if p.category.Some? && Lower(p.category.value) != "" then [Lower(p.category.value)] else [])
  {
    if posts != [] {
      assert (posts + [p])[1..] == posts[1..] + [p];
      LoweredCategoriesSnoc(posts[1..], p);
    } else {
      assert [p][1..] == [];
    }
  }

  /** A Set built by insertion: each value kept at its first appearance. */
  function Dedup(xs: seq<string>, seen: set<string>): (r: seq<string>)
    ensures forall x :: x in r <==> x in xs && x !in seen
  {
    if xs == [] then []
    else if xs[0] in seen then Dedup(xs[1..], seen)
    else [xs[0]] + Dedup(xs[1..], seen + {xs[0]})
  }

  predicate Distinct(xs: seq<string>) {
    forall i, j :: 0 <= i < j < |xs| ==> xs[i] != xs[j]
  }

  lemma {:induction false} DedupDistinct(xs: seq<string>, seen: set<string>)
    ensures Distinct(Dedup(xs, seen))
  {
    if xs != [] {
      DedupDistinct(xs[1..], seen + {xs[0]});
      DedupDistinct(xs[1..], seen);
    }
  }

  /** Reference definition of first-appearance order, built from the back:
      an element is listed when it does not occur earlier. */
  function FirstAppearances(xs: seq<string>): seq<string> {
    if xs == [] then []
    else
      var init := xs[..|xs| - 1];
      FirstAppearances(init) + (if xs[|xs| - 1] in init then [] else [xs[|xs| - 1]])
  }

  lemma {:induction false} DedupSnoc(xs: seq<string>, y: string, seen: set<string>)
    ensures Dedup(xs + [y], seen) == Dedup(xs, seen) + (if y in seen || y in xs then [] else [y])
  {
    if xs == [] {
      assert [y][1..] == [];
    } else {
      var ys := xs + [y];
      assert ys[0] == xs[0] && ys[1..] == xs[1..] + [y];
      assert y in xs <==> y == xs[0] || y in xs[1..] by { assert xs == [xs[0]] + xs[1..]; }
      if xs[0] in seen {
        DedupSnoc(xs[1..], y, seen);
        assert Dedup(ys, seen) == Dedup(xs[1..] + [y], seen);
      } else {
        DedupSnoc(xs[1..], y, seen + {xs[0]});
        assert Dedup(ys, seen) == [xs[0]] + Dedup(xs[1..] + [y], seen + {xs[0]});
        assert Dedup(xs, seen) == [xs[0]] + Dedup(xs[1..], seen + {xs[0]});
      }
    }
  }

  /** The Set keeps exactly the first appearances, in order. */
  lemma {:induction false} DedupIsFirstAppearances(xs: seq<string>)
    ensures Dedup(xs, {}) == FirstAppearances(xs)
  {
    if xs != [] {
      var init := xs[..|xs| - 1];
      DedupIsFirstAppearances(init);
      DedupSnoc(init, xs[|xs| - 1], {});
      assert init + [xs[|xs| - 1]] == xs;
    }
  }

  /** categories: "all", then the distinct non-empty lowercased categories in
      order of first appearance. */
  function Categories(posts: seq<Card>): (r: seq<string>)
    ensures |r| >= 1 && r[0] == "all"
    ensures forall i :: 1 <= i < |r| ==> r[i] != "" && IsLower(r[i])
    ensures forall c :: c in r[1..] <==> c in LoweredCategories(posts)
  {
    var xs := LoweredCategories(posts);
    var r := ["all"] + Dedup(xs, {});
    assert r[1..] == Dedup(xs, {});
    assert forall i :: 1 <= i < |r| ==> r[i] in xs;
    r
  }

  /** The entries after "all" are distinct and follow first appearance. */
  lemma CategoriesInFirstAppearanceOrder(posts: seq<Card>)
    ensures Distinct(Categories(posts)[1..])
    ensures Categories(posts)[1..] == FirstAppearances(LoweredCategories(posts))
  {
    var xs := LoweredCategories(posts);
    assert Categories(posts)[1..] == Dedup(xs, {});
    DedupDistinct(xs, {});
    DedupIsFirstAppearances(xs);
  }
}
