/**
 * The BlogSystem controller of blog.js: the loaded catalog, the current
 * post, which of the two views is shown, and the browser history it pushes.
 */
module Blog {
  import opened Wrappers
  import opened Catalog
  import opened Outline

  /** The state object of a history entry: `{}` for the list, `{post: slug}` for a post. */
  datatype HistoryState = ListState | PostState(post: string)

  /**
   * The outcome of fetching a post's markdown and converting it: the heading
   * elements (h1 to h4) of the converted content, in document order, or a failure.
   */
  datatype Fetch = Fetched(headings: seq<Heading>) | FetchFailed

  /**
   * What the post container shows: nothing yet, a rendered post (its slug and
   * the ids its headings carry once the outline is generated), or an error.
   */
  datatype PostPanel = EmptyPanel | Article(slug: string, headingIds: seq<string>) | ErrorPanel(message: string)

  /** The panel shows post `slug`, whose headings carry the ids the outline builder gives them. */
  predicate ShowsPost(panel: PostPanel, slug: string, headings: seq<Heading>) {
    panel.Article? && panel.slug == slug && IdsWritten(headings, panel.headingIds)
  }

  /** The outline panel generated for a post with these headings. */
  function TocFor(headings: seq<Heading>): Toc {
    if headings == [] then NoHeadings else Links(Expected(headings))
  }

  const LoadFailedMessage: string := "Failed to load blog post"

  class BlogSystem {
    /** The catalog, newest first. */
    var posts: seq<Post>
    var currentPost: Option<Post>
    /** Whether `#blog-list` and `#blog-post` are displayed. */
    var listVisible: bool
    var postVisible: bool
    /** The states pushed with `history.pushState`, oldest first. */
    var history: seq<HistoryState>
    /** The contents of `#posts-container`, once rendered. */
    var listView: Option<ListView>
    /** The contents of `#post-container`. */
    var panel: PostPanel
    /** The contents of `#toc_list`, once generated. */
    var toc: Option<Toc>

    /** The view shown is the one the last pushed history entry names. */
    ghost predicate ViewMatchesHistory()
      reads this
    {
      history != [] ==>
        && (history[|history| - 1] == ListState ==> listVisible && !postVisible)
        && (history[|history| - 1].PostState? ==> postVisible && !listVisible)
    }

    /** The constructor (blog.js:3-7); the initial display comes from the page's markup. */
    constructor (listShown: bool, postShown: bool)
      ensures posts == [] && currentPost == None && history == []
      ensures listVisible == listShown && postVisible == postShown
      ensures listView == None && panel == EmptyPanel && toc == None
      ensures ViewMatchesHistory()
    {
      posts, currentPost, history := [], None, [];
      listVisible, postVisible := listShown, postShown;
      listView, panel, toc := None, EmptyPanel, None;
    }

    /**
     * loadPosts (blog.js:36-48): `manifest` is the parsed manifest, or None
     * when fetching or parsing it failed. A failure leaves an empty catalog
     * and is not passed on; otherwise the catalog is the manifest sorted
     * newest first, stably.
     */
    method LoadPosts(manifest: Option<seq<Post>>)
      modifies this`posts
      ensures manifest.None? ==> posts == []
      ensures manifest.Some? ==> SortedNewestFirst(posts) && SameDateOrder(manifest.value, posts)
      ensures manifest.Some? ==> multiset(posts) == multiset(manifest.value)
    {
      match manifest
      case None =>
        posts := [];
      case Some(entries) =>
        var a := new Post[|entries|](i requires 0 <= i < |entries| => entries[i]);
        assert a[..] == entries;
        SortNewestFirst(a);
        posts := a[..];
    }

    /** showBlogList (blog.js:69-80): shows the list, hides the post, renders the list and pushes `{}`. */
    method ShowBlogList()
      modifies this`listVisible, this`postVisible, this`listView, this`history
      ensures listVisible && !postVisible
      ensures listView == Some(RenderBlogList(posts))
      ensures history == old(history) + [ListState]
      ensures ViewMatchesHistory()
    {
      listVisible, postVisible := true, false;
      listView := Some(RenderBlogList(posts));
      history := history + [ListState];
    }

    /** showPostView (blog.js:323-329). */
    method ShowPostView()
      modifies this`listVisible, this`postVisible
      ensures !listVisible && postVisible
    {
      listVisible, postVisible := false, true;
    }

    /** showError (blog.js:331-340): the error panel, with its way back to the list, replaces the post. */
    method ShowError(message: string)
      modifies this`panel
      ensures panel == ErrorPanel(message)
    {
      panel := ErrorPanel(message);
    }

    /**
     * init (blog.js:9-34) after the converter is configured: loads the
     * catalog and shows the list. With no manifest, the list shows the
     * "No blog posts found" notice.
     */
    method Init(manifest: Option<seq<Post>>)
      modifies this`posts, this`listVisible, this`postVisible, this`listView, this`history
      ensures manifest.None? ==> posts == [] && listView == Some(NoPostsNotice)
      ensures manifest.Some? ==> SortedNewestFirst(posts) && multiset(posts) == multiset(manifest.value)
      ensures manifest.Some? ==> SameDateOrder(manifest.value, posts)
      ensures listView == Some(RenderBlogList(posts))
      ensures listVisible && !postVisible && history == old(history) + [ListState]
      ensures ViewMatchesHistory()
    {
      LoadPosts(manifest);
      ShowBlogList();
    }

    /**
     * loadPost (blog.js:120-156). An unknown slug changes nothing. A known
     * one becomes the current post; then, if its markdown was fetched, the
     * post and its outline are rendered, the post view is shown and
     * `{post: slug}` is pushed; if not, the error panel replaces the post
     * and neither the views nor the history change.
     */
    method LoadPost(slug: string, fetch: Fetch)
      requires ViewMatchesHistory()
      modifies this`currentPost, this`panel, this`toc, this`listVisible, this`postVisible, this`history
      ensures ViewMatchesHistory()
      ensures FindPost(posts, slug).None? ==>
        && currentPost == old(currentPost) && panel == old(panel) && toc == old(toc)
        && listVisible == old(listVisible) && postVisible == old(postVisible) && history == old(history)
      ensures FindPost(posts, slug).Some? ==> currentPost == Some(posts[FindPost(posts, slug).value])
      ensures FindPost(posts, slug).Some? && fetch.Fetched? ==>
        && ShowsPost(panel, slug, fetch.headings)
        && toc == Some(TocFor(fetch.headings))
        && postVisible && !listVisible
        && history == old(history) + [PostState(slug)]
      ensures FindPost(posts, slug).Some? && fetch.FetchFailed? ==>
        && panel == ErrorPanel(LoadFailedMessage) && toc == old(toc)
        && listVisible == old(listVisible) && postVisible == old(postVisible) && history == old(history)
    {
      var found := FindPost(posts, slug);
      if found.None? {
        return;
      }
      currentPost := Some(posts[found.value]);
      match fetch
      case Fetched(headings) =>
        var ids, outline := GenerateToc(headings);
        panel := Article(slug, ids);
        toc := Some(outline);
        ShowPostView();
        history := history + [PostState(slug)];
      case FetchFailed =>
        ShowError(LoadFailedMessage);
    }

    /**
     * The popstate handler (blog.js:60-66): a state naming a post loads that
     * post, anything else shows the list. Both paths push a new history
     * entry when they succeed.
     */
    method OnPopState(state: Option<HistoryState>, fetch: Fetch)
      requires ViewMatchesHistory()
      modifies this`currentPost, this`panel, this`toc, this`listVisible, this`postVisible, this`history, this`listView
      ensures ViewMatchesHistory()
      ensures !(state.Some? && state.value.PostState? && state.value.post != "") ==>
        && listVisible && !postVisible && history == old(history) + [ListState]
        && listView == Some(RenderBlogList(posts))
        && currentPost == old(currentPost) && panel == old(panel) && toc == old(toc)
      ensures state.Some? && state.value.PostState? && state.value.post != "" ==>
        listView == old(listView)
      ensures (state.Some? && state.value.PostState? && state.value.post != ""
               && FindPost(posts, state.value.post).None?) ==>
        && currentPost == old(currentPost) && panel == old(panel) && toc == old(toc)
        && listVisible == old(listVisible) && postVisible == old(postVisible) && history == old(history)
      ensures (state.Some? && state.value.PostState? && state.value.post != ""
               && FindPost(posts, state.value.post).Some?) ==>
        currentPost == Some(posts[FindPost(posts, state.value.post).value])
      ensures (state.Some? && state.value.PostState? && state.value.post != ""
               && FindPost(posts, state.value.post).Some? && fetch.Fetched?) ==>
        && ShowsPost(panel, state.value.post, fetch.headings)
        && toc == Some(TocFor(fetch.headings))
        && postVisible && !listVisible && history == old(history) + [PostState(state.value.post)]
      ensures (state.Some? && state.value.PostState? && state.value.post != ""
               && FindPost(posts, state.value.post).Some? && fetch.FetchFailed?) ==>
        && panel == ErrorPanel(LoadFailedMessage) && toc == old(toc)
        && listVisible == old(listVisible) && postVisible == old(postVisible) && history == old(history)
    {
      if state.Some? && state.value.PostState? && state.value.post != "" {
        LoadPost(state.value.post, fetch);
      } else {
        ShowBlogList();
      }
    }

    /** The deep-link handler (blog.js:350-359): a non-empty `post` query parameter loads that post. */
    method OpenDeepLink(query: Option<string>, fetch: Fetch)
      requires ViewMatchesHistory()
      modifies this`currentPost, this`panel, this`toc, this`listVisible, this`postVisible, this`history
      ensures ViewMatchesHistory()
      ensures (query.None? || query.value == "" || FindPost(posts, query.value).None?) ==>
        && currentPost == old(currentPost) && panel == old(panel) && toc == old(toc)
        && listVisible == old(listVisible) && postVisible == old(postVisible) && history == old(history)
      ensures query.Some? && query.value != "" && FindPost(posts, query.value).Some? ==>
        currentPost == Some(posts[FindPost(posts, query.value).value])
      ensures query.Some? && query.value != "" && FindPost(posts, query.value).Some? && fetch.Fetched? ==>
        && ShowsPost(panel, query.value, fetch.headings)
        && toc == Some(TocFor(fetch.headings))
        && postVisible && !listVisible && history == old(history) + [PostState(query.value)]
      ensures query.Some? && query.value != "" && FindPost(posts, query.value).Some? && fetch.FetchFailed? ==>
        && panel == ErrorPanel(LoadFailedMessage) && toc == old(toc)
        && listVisible == old(listVisible) && postVisible == old(postVisible) && history == old(history)
    {
      if query.Some? && query.value != "" {
        LoadPost(query.value, fetch);
      }
    }
  }

  /**
   * List, then a post of the manifest, then the back-to-list button: the post
   * view is shown with `{post: s}` on top of the history, and afterwards the
   * list is shown with `{}` on top.
   */
  method NavigationRoundTrip(manifest: seq<Post>, s: string, headings: seq<Heading>)
    returns (postShown: bool, postTop: HistoryState, listShown: bool, listTop: HistoryState)
    requires FindPost(manifest, s).Some?
    ensures postShown && postTop == PostState(s)
    ensures listShown && listTop == ListState
  {
    var blog := new BlogSystem(false, false);
    blog.Init(Some(manifest));
    var k := FindPost(manifest, s).value;
    assert manifest[k] in multiset(manifest);
    assert manifest[k] in blog.posts;
    blog.LoadPost(s, Fetched(headings));
    postShown, postTop := blog.postVisible, blog.history[|blog.history| - 1];
    blog.ShowBlogList();
    listShown, listTop := blog.listVisible, blog.history[|blog.history| - 1];
  }
}
