/**
 * The derived views of the blog listing (src/pages/blog.tsx): the posts
 * whose title matches the search text, the window of them shown so far,
 * and the two conditions that decide whether the "no results" message and
 * the "load more" button appear.
 */
module Listing {
  import opened Text
  import Excerpt

  /** A fetched post, with the fields the listing reads. */
  datatype Post = Post(id: string, title: string, slug: string, publishedAt: string, body: Excerpt.Body)

  /** The number of posts shown before "load more" is used, and after every search change. */
  const InitialCount: nat := 9

  /** The number of further posts each "load more" reveals. */
  const PageStep: nat := 6

  function Min(a: int, b: int): int {
    if a <= b then a else b
  }

  /**
   * `p.title.toLowerCase().includes(search.toLowerCase())`; the empty
   * search text matches every title.
   */
  predicate Matches(p: Post, search: string)
    ensures search == "" ==> Matches(p, search)
  {
    IncludesEmpty(Lower(p.title));
    assert search == "" ==> Lower(search) == "";
    Includes(Lower(p.title), Lower(search))
  }

  /** `r` is `s` with some elements left out, the rest in their original order. */
  ghost predicate IsSubsequence<T>(r: seq<T>, s: seq<T>)
    decreases |s|
  {
    r == [] || (s != [] && ((r[0] == s[0] && IsSubsequence(r[1..], s[1..])) || IsSubsequence(r, s[1..])))
  }

  lemma {:induction false} SubsequenceReflexive<T>(s: seq<T>)
    ensures IsSubsequence(s, s)
    decreases |s|
  {
    if s != [] {
      SubsequenceReflexive(s[1..]);
    }
  }

  /** Every prefix of a subsequence of `s` is a subsequence of `s`. */
  lemma {:induction false} PrefixOfSubsequence<T>(r: seq<T>, s: seq<T>, k: nat)
    requires IsSubsequence(r, s) && k <= |r|
    ensures IsSubsequence(r[..k], s)
    decreases |s|
  {
    if k > 0 {
      if r[0] == s[0] && IsSubsequence(r[1..], s[1..]) {
        PrefixOfSubsequence(r[1..], s[1..], k - 1);
        assert r[..k][1..] == r[1..][..k - 1];
      } else {
        PrefixOfSubsequence(r, s[1..], k);
      }
    }
  }

  /**
   * `posts.filter(p => Matches(p, search))`: only matching posts, in their
   * original order.
   */
  function KeepMatching(posts: seq<Post>, search: string): (r: seq<Post>)
    ensures forall i :: 0 <= i < |r| ==> Matches(r[i], search)
    ensures IsSubsequence(r, posts)
    decreases |posts|
  {
    if posts == [] then []
    else
      var rest := KeepMatching(posts[1..], search);
      if Matches(posts[0], search) then
        assert ([posts[0]] + rest)[1..] == rest;
        [posts[0]] + rest
      else rest
  }

  /** The filter keeps every matching post as often as it occurs, and no other post. */
  lemma {:induction false} KeepMatchingCounts(posts: seq<Post>, search: string)
    ensures forall p :: multiset(KeepMatching(posts, search))[p] == if Matches(p, search) then multiset(posts)[p] else 0
    decreases |posts|
  {
    if posts != [] {
      KeepMatchingCounts(posts[1..], search);
      assert posts == [posts[0]] + posts[1..];
    }
  }

  /** A post is kept exactly when it matches. */
  lemma KeepMatchingKeeps(posts: seq<Post>, search: string)
    ensures forall i :: 0 <= i < |posts| ==> (posts[i] in KeepMatching(posts, search) <==> Matches(posts[i], search))
  {
  }

  /**
   * `filteredPosts`: all posts when the search text is empty, otherwise
   * exactly the posts whose lower-cased title contains the lower-cased
   * search text, in their original order.
   */
  function Filtered(posts: seq<Post>, search: string): (r: seq<Post>)
    ensures search == "" ==> r == posts
    ensures search != "" ==> forall i :: 0 <= i < |r| ==> Matches(r[i], search)
    ensures search != "" ==> forall i :: 0 <= i < |posts| ==> (posts[i] in r <==> Matches(posts[i], search))
    ensures search != "" ==> forall p :: multiset(r)[p] == if Matches(p, search) then multiset(posts)[p] else 0
    ensures IsSubsequence(r, posts)
  {
    if search == "" then
      SubsequenceReflexive(posts);
      posts
    else
      KeepMatchingCounts(posts, search);
      KeepMatchingKeeps(posts, search);
      KeepMatching(posts, search)
  }

  /**
   * `filteredPosts.slice(0, visibleCount)`: the first `count` filtered posts,
   * or all of them when there are fewer.
   */
  function Visible(filtered: seq<Post>, count: nat): (r: seq<Post>)
    ensures |r| == Min(count, |filtered|)
    ensures r <= filtered
  {
    if count < |filtered| then filtered[..count] else filtered
  }

  /** The "no results" message is shown: no post passes the filter. */
  predicate ShowsNoResults(filtered: seq<Post>)
    ensures ShowsNoResults(filtered) <==> filtered == []
  {
    |filtered| == 0
  }

  /** The "load more" button is shown: the count is below the number of filtered posts. */
  predicate ShowsLoadMore(filtered: seq<Post>, count: nat)
    ensures ShowsLoadMore(filtered, count) <==> |Visible(filtered, count)| < |filtered|
  {
    count < |filtered|
  }

  /** The empty-search shortcut changes nothing: filtering by "" keeps every post. */
  lemma {:induction false} EmptySearchKeepsAll(posts: seq<Post>)
    ensures KeepMatching(posts, "") == posts
    decreases |posts|
  {
    if posts != [] {
      EmptySearchKeepsAll(posts[1..]);
    }
  }

  /** Filtering the filtered posts again by the same text changes nothing. */
  lemma {:induction false} FilterIdempotent(posts: seq<Post>, search: string)
    ensures Filtered(Filtered(posts, search), search) == Filtered(posts, search)
  {
    if search != "" {
      KeepMatchingIdempotent(posts, search);
    }
  }

  lemma {:induction false} KeepMatchingIdempotent(posts: seq<Post>, search: string)
    ensures KeepMatching(KeepMatching(posts, search), search) == KeepMatching(posts, search)
    decreases |posts|
  {
    if posts != [] {
      KeepMatchingIdempotent(posts[1..], search);
      var rest := KeepMatching(posts[1..], search);
      if Matches(posts[0], search) {
        assert ([posts[0]] + rest)[1..] == rest;
      }
    }
  }

  /** A post whose title contains the search text verbatim is always kept. */
  lemma VerbatimTitleKept(posts: seq<Post>, search: string, i: nat)
    requires i < |posts| && Includes(posts[i].title, search)
    ensures posts[i] in Filtered(posts, search)
  {
    IncludesLowered(posts[i].title, search);
  }

  /** A title matching a longer search text also matches every prefix of it. */
  lemma MatchesPrefix(p: Post, search: string, more: string)
    requires Matches(p, search + more)
    ensures Matches(p, search)
  {
    LowerAppend(search, more);
    IncludesPrefix(Lower(p.title), Lower(search), Lower(more));
  }

  /**
   * A title matching a search text also matches every text that the
   * lower-cased search contains.
   */
  lemma MatchesContained(p: Post, search: string, longer: string)
    requires Includes(Lower(longer), Lower(search)) && Matches(p, longer)
    ensures Matches(p, search)
  {
    IncludesTransitive(Lower(p.title), Lower(longer), Lower(search));
  }

  lemma {:induction false} KeepMatchingNarrows(posts: seq<Post>, search: string, longer: string)
    requires Includes(Lower(longer), Lower(search))
    ensures IsSubsequence(KeepMatching(posts, longer), KeepMatching(posts, search))
    decreases |posts|
  {
    if posts != [] {
      KeepMatchingNarrows(posts[1..], search, longer);
      var narrow, wide := KeepMatching(posts[1..], longer), KeepMatching(posts[1..], search);
      if Matches(posts[0], longer) {
        MatchesContained(posts[0], search, longer);
        assert ([posts[0]] + narrow)[1..] == narrow;
        assert ([posts[0]] + wide)[1..] == wide;
      } else if Matches(posts[0], search) {
        assert ([posts[0]] + wide)[1..] == wide;
      }
    }
  }

  /**
   * Refining the search text to one that contains it, ignoring case, only
   * narrows the result: the posts found for the refined text are, in order,
   * a selection of those found before.
   */
  lemma NarrowingSearch(posts: seq<Post>, search: string, longer: string)
    requires Includes(Lower(longer), Lower(search))
    ensures IsSubsequence(Filtered(posts, longer), Filtered(posts, search))
  {
    if longer == "" {
      var i :| OccursAt(Lower(longer), Lower(search), i);
      assert search == "";
      SubsequenceReflexive(posts);
    } else if search != "" {
      KeepMatchingNarrows(posts, search, longer);
    }
  }

  /**
   * Appending characters to the search text only narrows the result, when
   * lower-casing works character by character.
   */
  lemma AppendingNarrows(posts: seq<Post>, search: string, more: string)
    ensures IsSubsequence(Filtered(posts, search + more), Filtered(posts, search))
  {
    LowerAppend(search, more);
    assert OccursAt(Lower(search + more), Lower(search), 0);
    NarrowingSearch(posts, search, search + more);
  }

  /** Lower-casing the search text first changes nothing: the search ignores case. */
  lemma {:induction false} CaseInsensitiveSearch(posts: seq<Post>, search: string)
    ensures Filtered(posts, Lower(search)) == Filtered(posts, search)
  {
    LowerIdempotent(search);
    if search != "" {
      assert Lower(search) != "" by {
        assert |Lower(search)| == |search|;
      }
      KeepMatchingLowered(posts, search);
    }
  }

  lemma {:induction false} KeepMatchingLowered(posts: seq<Post>, search: string)
    ensures KeepMatching(posts, Lower(search)) == KeepMatching(posts, search)
    decreases |posts|
  {
    LowerIdempotent(search);
    if posts != [] {
      KeepMatchingLowered(posts[1..], search);
    }
  }

  /** The visible posts are, in order, a selection of the loaded posts. */
  lemma VisibleSelectsPosts(posts: seq<Post>, search: string, count: nat)
    ensures IsSubsequence(Visible(Filtered(posts, search), count), posts)
  {
    var filtered := Filtered(posts, search);
    PrefixOfSubsequence(filtered, posts, |Visible(filtered, count)|);
    assert filtered[..|Visible(filtered, count)|] == Visible(filtered, count);
  }

  /** A larger count shows the same posts first, then possibly more. */
  lemma VisibleGrows(filtered: seq<Post>, count: nat, larger: nat)
    requires count <= larger
    ensures Visible(filtered, count) <= Visible(filtered, larger)
  {
  }

  /**
   * One "load more" keeps the shown posts and appends the next ones, at most
   * PageStep of them, in filtered order.
   */
  lemma LoadMoreAppends(filtered: seq<Post>, count: nat)
    ensures Visible(filtered, count + PageStep)
      == Visible(filtered, count) + filtered[Min(count, |filtered|)..Min(count + PageStep, |filtered|)]
  {
  }

  /**
   * The button is shown exactly while the window is not the whole filtered
   * list, that is while some filtered post is not yet visible.
   */
  lemma LoadMoreIffHidden(filtered: seq<Post>, count: nat)
    ensures ShowsLoadMore(filtered, count) <==> Visible(filtered, count) != filtered
  {
  }

  /** When the count is positive, the message appears exactly when nothing is visible. */
  lemma NoResultsIffNothingVisible(filtered: seq<Post>, count: nat)
    requires count > 0
    ensures ShowsNoResults(filtered) <==> Visible(filtered, count) == []
  {
  }

  /** The message and the button never appear together. */
  lemma NoResultsHidesLoadMore(filtered: seq<Post>, count: nat)
    requires ShowsNoResults(filtered)
    ensures !ShowsLoadMore(filtered, count)
  {
  }
}
