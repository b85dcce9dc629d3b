/**
 * The catalog of blog posts (blog.js, loadPosts and renderBlogList): the
 * manifest entries ordered newest first by a stable sort, the lookup of a
 * post by slug, and what the list view shows.
 */
module Catalog {
  import opened Wrappers

  /** A manifest entry; `date` is a day number standing for the parsed calendar date. */
  datatype Post = Post(slug: string, title: string, date: int, excerpt: string, readTime: int, tags: Option<seq<string>>)

  /** Newest first: no post is followed by a newer one. */
  predicate SortedNewestFirst(s: seq<Post>) {
    forall i, j | 0 <= i < j < |s| :: s[i].date >= s[j].date
  }

  /** The posts of `s` dated `d`, in their order in `s`. */
  function WithDate(s: seq<Post>, d: int): (r: seq<Post>)
    ensures |r| <= |s|
    ensures forall p | p in r :: p in s && p.date == d
  {
    if s == [] then []
    else (if s[0].date == d then [s[0]] else []) + WithDate(s[1..], d)
  }

  /** `s` orders the posts of each date as `orig` does (what a stable sort keeps). */
  ghost predicate SameDateOrder(orig: seq<Post>, s: seq<Post>) {
    forall d :: WithDate(s, d) == WithDate(orig, d)
  }

  lemma {:induction false} WithDateConcat(a: seq<Post>, b: seq<Post>, d: int)
    ensures WithDate(a + b, d) == WithDate(a, d) + WithDate(b, d)
    decreases |a|
  {
    if a == [] {
      assert a + b == b;
    } else {
      assert (a + b)[1..] == a[1..] + b;
      WithDateConcat(a[1..], b, d);
    }
  }

  lemma WithDateSplit(front: seq<Post>, mid: seq<Post>, back: seq<Post>, d: int)
    ensures WithDate(front + mid + back, d) == WithDate(front, d) + WithDate(mid, d) + WithDate(back, d)
  {
    WithDateConcat(front + mid, back, d);
    WithDateConcat(front, mid, d);
  }

  lemma SwapPairKeepsDateOrder(x: Post, y: Post, d: int)
    requires x.date != y.date
    ensures WithDate([x, y], d) == WithDate([y, x], d)
  {
    assert [x, y][1..] == [y];
    assert [y, x][1..] == [x];
  }

  /** `s` with the posts at `j - 1` and `j` exchanged. */
  function Swapped(s: seq<Post>, j: nat): seq<Post>
    requires 0 < j < |s|
  {
    s[j - 1 := s[j]][j := s[j - 1]]
  }

  /** Exchanging two neighbours with different dates keeps the order within every date. */
  lemma SwapKeepsDateOrder(s: seq<Post>, j: nat)
    requires 0 < j < |s| && s[j - 1].date != s[j].date
    ensures SameDateOrder(s, Swapped(s, j))
  {
    var swapped := Swapped(s, j);
    var front, back := s[..j - 1], s[j + 1..];
    assert s == front + [s[j - 1], s[j]] + back;
    assert swapped == front + [s[j], s[j - 1]] + back;
    forall d ensures WithDate(swapped, d) == WithDate(s, d) {
      WithDateSplit(front, [s[j - 1], s[j]], back, d);
      WithDateSplit(front, [s[j], s[j - 1]], back, d);
      SwapPairKeepsDateOrder(s[j - 1], s[j], d);
    }
  }

  lemma SameDateOrderTransitive(r: seq<Post>, s: seq<Post>, t: seq<Post>)
    requires SameDateOrder(r, s) && SameDateOrder(s, t)
    ensures SameDateOrder(r, t)
  {
  }

  /**
   * The state of an insertion pass over the first `i + 1` posts while the
   * moving post is at `j`: apart from it they are newest first, and it is
   * strictly newer than every post after it.
   */
  ghost predicate Sinking(s: seq<Post>, j: nat, i: nat)
    requires j <= i < |s|
  {
    && (forall k, l | 0 <= k < l <= i && k != j && l != j :: s[k].date >= s[l].date)
    && (forall l | j < l <= i :: s[j].date > s[l].date)
  }

  lemma SinkStep(s: seq<Post>, j: nat, i: nat)
    requires 0 < j <= i < |s| && Sinking(s, j, i) && s[j - 1].date < s[j].date
    ensures Sinking(Swapped(s, j), j - 1, i)
  {
  }

  lemma SinkDone(s: seq<Post>, j: nat, i: nat)
    requires j <= i < |s| && Sinking(s, j, i)
    requires j == 0 || s[j - 1].date >= s[j].date
    ensures SortedNewestFirst(s[..i + 1])
  {
    forall k, l | 0 <= k < l <= i ensures s[k].date >= s[l].date {
      if l == j && k < j - 1 {
        assert s[k].date >= s[j - 1].date;
      }
    }
  }

  /**
   * One pass of the insertion sort: moves the post at `i` left past every
   * strictly older post, so that the first `i + 1` posts are newest first.
   */
  method SinkNewer(a: array<Post>, i: nat)
    requires i < a.Length && SortedNewestFirst(a[..i])
    modifies a
    ensures SortedNewestFirst(a[..i + 1])
    ensures SameDateOrder(old(a[..]), a[..])
    ensures a[i + 1..] == old(a[i + 1..])
  {
    var j := i;
    assert Sinking(a[..], j, i) by {
      assert forall k | 0 <= k < i :: a[..i][k] == a[k];
    }
    while j > 0 && a[j - 1].date < a[j].date
      invariant 0 <= j <= i
      invariant Sinking(a[..], j, i)
      invariant SameDateOrder(old(a[..]), a[..])
      invariant a[i + 1..] == old(a[i + 1..])
    {
      ghost var before := a[..];
      SwapKeepsDateOrder(before, j);
      SinkStep(before, j, i);
      a[j - 1], a[j] := a[j], a[j - 1];
      assert a[..] == Swapped(before, j);
      SameDateOrderTransitive(old(a[..]), before, a[..]);
      j := j - 1;
    }
    SinkDone(a[..], j, i);
    assert a[..i + 1] == a[..][..i + 1];
  }

  /**
   * `posts.sort((a, b) => new Date(b.date) - new Date(a.date))` (blog.js:43):
   * a stable sort, newest first, in place. Written as an insertion sort that
   * moves each post left past strictly older ones only.
   */
  method SortNewestFirst(a: array<Post>)
    modifies a
    ensures SortedNewestFirst(a[..])
    ensures SameDateOrder(old(a[..]), a[..])
    ensures multiset(a[..]) == multiset(old(a[..]))
  {
    var i := 0;
    while i < a.Length
      invariant 0 <= i <= a.Length
      invariant SortedNewestFirst(a[..i])
      invariant SameDateOrder(old(a[..]), a[..])
    {
      SinkNewer(a, i);
      i := i + 1;
    }
    assert a[..a.Length] == a[..];
    SameDateOrderIsPermutation(old(a[..]), a[..]);
  }

  lemma {:induction false} CountWithinDate(s: seq<Post>, p: Post)
    ensures multiset(s)[p] == multiset(WithDate(s, p.date))[p]
    decreases |s|
  {
    if s != [] {
      assert s == [s[0]] + s[1..];
      CountWithinDate(s[1..], p);
    }
  }

  /** Keeping the order within every date implies holding the same posts: a permutation. */
  lemma SameDateOrderIsPermutation(orig: seq<Post>, s: seq<Post>)
    requires SameDateOrder(orig, s)
    ensures multiset(s) == multiset(orig)
  {
    forall p ensures multiset(s)[p] == multiset(orig)[p] {
      CountWithinDate(s, p);
      CountWithinDate(orig, p);
      assert WithDate(s, p.date) == WithDate(orig, p.date);
    }
  }

  /** The first post of a sequence heads the posts of its own date. */
  lemma WithDateHead(s: seq<Post>)
    requires s != []
    ensures WithDate(s, s[0].date) == [s[0]] + WithDate(s[1..], s[0].date)
  {
  }

  /** In a newest-first sequence, the first post is at least as new as any post it holds. */
  lemma NewestFirstHeadIsNewest(s: seq<Post>, p: Post)
    requires SortedNewestFirst(s) && p in s
    ensures s[0].date >= p.date
  {
    var k :| 0 <= k < |s| && s[k] == p;
    if k > 0 {
      assert s[0].date >= s[k].date;
    }
  }

  /** Two newest-first orders of the same posts per date start with the same post. */
  lemma SameNewestPost(t: seq<Post>, u: seq<Post>)
    requires SortedNewestFirst(t) && SortedNewestFirst(u)
    requires SameDateOrder(t, u)
    requires t != [] && u != []
    ensures t[0] == u[0]
  {
    WithDateHead(t);
    WithDateHead(u);
    var dt, du := t[0].date, u[0].date;
    assert WithDate(t, dt)[0] == t[0];
    assert WithDate(u, du)[0] == u[0];
    assert WithDate(t, dt) == WithDate(u, dt);
    assert t[0] in u;
    NewestFirstHeadIsNewest(u, t[0]);
    assert WithDate(t, du) == WithDate(u, du);
    assert u[0] in t;
    NewestFirstHeadIsNewest(t, u[0]);
  }

  lemma SameDateOrderTails(t: seq<Post>, u: seq<Post>)
    requires SameDateOrder(t, u)
    requires t != [] && u != [] && t[0] == u[0]
    ensures SameDateOrder(t[1..], u[1..])
  {
    forall e ensures WithDate(u[1..], e) == WithDate(t[1..], e) {
      assert WithDate(t, e) == WithDate(u, e);
      if e == t[0].date {
        assert WithDate(t[1..], e) == WithDate(t, e)[1..];
        assert WithDate(u[1..], e) == WithDate(u, e)[1..];
      } else {
        assert WithDate(t, e) == [] + WithDate(t[1..], e) == WithDate(t[1..], e);
        assert WithDate(u, e) == [] + WithDate(u[1..], e) == WithDate(u[1..], e);
      }
    }
  }

  /**
   * A newest-first order that keeps the order within every date is unique:
   * whatever stable sort runs, the catalog comes out the same.
   */
  lemma {:induction false} StableNewestFirstIsUnique(t: seq<Post>, u: seq<Post>)
    requires SortedNewestFirst(t) && SortedNewestFirst(u)
    requires SameDateOrder(t, u)
    ensures t == u
    decreases |t|
  {
    SameDateOrderIsPermutation(t, u);
    assert |t| == |multiset(t)| == |multiset(u)| == |u|;
    if t != [] {
      SameNewestPost(t, u);
      SameDateOrderTails(t, u);
      StableNewestFirstIsUnique(t[1..], u[1..]);
      assert t == [t[0]] + t[1..];
      assert u == [u[0]] + u[1..];
    }
  }

  /**
   * A manifest listing "a" (day 100) before the newer "b" (day 131): every
   * stable newest-first order of it is [b, a].
   */
  lemma NewerPostFirstExample(a: Post, b: Post, sorted: seq<Post>)
    requires a.slug == "a" && a.date == 100 && b.slug == "b" && b.date == 131
    requires SortedNewestFirst(sorted) && SameDateOrder([a, b], sorted)
    ensures sorted == [b, a]
  {
    forall d ensures WithDate([b, a], d) == WithDate([a, b], d) {
      SwapPairKeepsDateOrder(a, b, d);
    }
    StableNewestFirstIsUnique(sorted, [b, a]);
  }

  /** `posts.find((p) => p.slug === slug)` (blog.js:121): the first post with that slug. */
  function FindPost(posts: seq<Post>, slug: string): (r: Option<nat>)
    ensures r.Some? ==> r.value < |posts| && posts[r.value].slug == slug
    ensures r.Some? ==> forall j | 0 <= j < r.value :: posts[j].slug != slug
    ensures r.None? ==> forall j | 0 <= j < |posts| :: posts[j].slug != slug
  {
    if posts == [] then None
    else if posts[0].slug == slug then Some(0)
    else match FindPost(posts[1..], slug)
      case None => None
      case Some(k) => Some(k + 1)
  }

  /** What the list container shows: the "No blog posts found" notice, or one card per post. */
  datatype ListView = NoPostsNotice | Cards(slugs: seq<string>)

  /** renderBlogList (blog.js:82-118): the notice when there are no posts, else the cards in catalog order. */
  function RenderBlogList(posts: seq<Post>): (v: ListView)
    ensures v.NoPostsNotice? <==> posts == []
    ensures v.Cards? ==> |v.slugs| == |posts| && forall i | 0 <= i < |posts| :: v.slugs[i] == posts[i].slug
  {
    if |posts| == 0 then NoPostsNotice
    else Cards(seq(|posts|, i requires 0 <= i < |posts| => posts[i].slug))
  }
}
