/**
 * The state of the blog listing page (`BlogPage` in src/pages/blog.tsx):
 * the loaded posts, the search text and the number of posts revealed, and
 * the events that change them. Each event is one atomic transition; where
 * the page resets the count in an effect after a search change, the
 * transition includes the reset.
 */
module Page {
  import opened Wrappers
  import opened Listing

  class BlogPage {
    var posts: seq<Post>
    var search: string
    var visibleCount: nat

    /**
     * The count starts at InitialCount and only ever grows by PageStep
     * until the next reset, so it is always InitialCount plus a whole
     * number of steps.
     */
    ghost predicate Valid()
      reads this
    {
      visibleCount >= InitialCount && (visibleCount - InitialCount) % PageStep == 0
    }

    /** `useState([])`, `useState("")`, `useState(9)`. */
    constructor ()
      ensures Valid()
      ensures posts == [] && search == "" && visibleCount == InitialCount
    {
      posts := [];
      search := "";
      visibleCount := InitialCount;
    }

    /** `filteredPosts` for the current state. */
    function FilteredPosts(): seq<Post>
      reads this
    {
      Filtered(posts, search)
    }

    /** `visiblePosts` for the current state. */
    function VisiblePosts(): seq<Post>
      reads this
    {
      Visible(FilteredPosts(), visibleCount)
    }

    /** Whether the "no results" message is rendered. */
    predicate NoResultsShown()
      reads this
    {
      ShowsNoResults(FilteredPosts())
    }

    /** Whether the "load more" button is rendered. */
    predicate LoadMoreShown()
      reads this
    {
      ShowsLoadMore(FilteredPosts(), visibleCount)
    }

    /**
     * The completion of the initial fetch: on success (`Some`) the posts are
     * replaced by the fetched ones; on failure the error is only logged and
     * nothing changes. The search text and the count are kept either way.
     */
    method Load(response: Option<seq<Post>>)
      requires Valid()
      modifies this
      ensures Valid()
      ensures response.Some? ==> posts == response.value
      ensures response.None? ==> posts == old(posts)
      ensures search == old(search) && visibleCount == old(visibleCount)
    {
      if response.Some? {
        posts := response.value;
      }
    }

    /**
     * A change of the search input, with the count reset that follows it:
     * a different text replaces the search and sets the count back to
     * InitialCount, whatever it was; the same text changes nothing.
     */
    method SetSearch(text: string)
      requires Valid()
      modifies this
      ensures Valid()
      ensures search == text && posts == old(posts)
      ensures text != old(search) ==> visibleCount == InitialCount
      ensures text == old(search) ==> visibleCount == old(visibleCount)
    {
      if text != search {
        search := text;
        visibleCount := InitialCount;
      }
    }

    /** The "clear" button: the search becomes empty and every loaded post passes the filter again. */
    method ClearSearch()
      requires Valid()
      modifies this
      ensures Valid()
      ensures search == "" && posts == old(posts)
      ensures FilteredPosts() == posts
      ensures old(search) != "" ==> visibleCount == InitialCount
      ensures old(search) == "" ==> visibleCount == old(visibleCount)
    {
      SetSearch("");
    }

    /**
     * The "load more" button: the count grows by exactly PageStep and nothing
     * else changes; the posts already shown stay shown, in the same order,
     * and are followed by the next filtered posts.
     */
    method LoadMore()
      requires Valid()
      modifies this
      ensures Valid()
      ensures visibleCount == old(visibleCount) + PageStep
      ensures posts == old(posts) && search == old(search)
      ensures old(VisiblePosts()) <= VisiblePosts()
      ensures |VisiblePosts()| <= |old(VisiblePosts())| + PageStep
    {
      ghost var filtered, count := FilteredPosts(), visibleCount;
      visibleCount := visibleCount + PageStep;
      assert FilteredPosts() == filtered;
      LoadMoreAppends(filtered, count);
    }
  }

  /**
   * On a valid page the "no results" message appears exactly when no post
   * is visible, and never together with the "load more" button.
   */
  lemma NoResultsIffEmptyWindow(page: BlogPage)
    requires page.Valid()
    ensures page.NoResultsShown() <==> page.VisiblePosts() == []
    ensures page.NoResultsShown() ==> !page.LoadMoreShown()
  {
  }
}
