/**
 * The outline (table of contents) builder of blog.js, generateTOC
 * (blog.js:173-260): heading ids, placement of each heading in a forest
 * of at most three levels, and the rendering of that forest as links.
 */
module Outline {
  import opened Wrappers
  import opened Slug

  /** A heading element of the rendered post: its level (the digit of h1..h4), text and id. */
  datatype Heading = Heading(level: int, text: string, existingId: Option<string>)

  /** An outline item; `children` is the array the builder pushes onto. */
  datatype Node = Node(level: int, text: string, id: string, children: seq<Node>)

  /** One rendered `<a class="toc-link">`: its target id, its text and how deep it is nested. */
  datatype Link = Link(headingId: string, text: string, depth: nat)

  /** What the outline panel shows: the "No headings found" item, or the rendered links. */
  datatype Toc = NoHeadings | Links(links: seq<Link>)

  /** `heading.id` is truthy: an empty id counts as no id. */
  predicate HasId(h: Heading) {
    h.existingId.Some? && h.existingId.value != ""
  }

  /**
   * The heading's id after the builder ran (blog.js:199-206). A heading that
   * has an id keeps it; one that has none gets an id that reads back as its
   * position and the well-formed slug of its text.
   */
  function FinalId(h: Heading, index: nat): (r: string)
    ensures HasId(h) ==> r == h.existingId.value
    ensures !HasId(h) ==> ParseHeadingId(r) == Some((index, Slugify(h.text))) && IsSlug(Slugify(h.text))
  {
    if HasId(h) then h.existingId.value else HeadingId(index, Slugify(h.text))
  }

  /** Only levels 1 to 3 have a placement rule; level 4 falls through every branch. */
  predicate IsPlacedLevel(level: int) {
    1 <= level <= 3
  }

  // ---------------------------------------------------------------------
  // Reference definition: the outline as a flat list of links with depths.

  /**
   * The depth at which a heading of `level` lands after the links `prev`:
   * the first placed heading and every level-1 heading start a top-level
   * entry; a level-2 heading sits under the last top-level entry; a level-3
   * heading sits under the last top-level entry when that entry is the last
   * link so far, and one level deeper otherwise.
   */
  function DepthFor(level: int, prev: seq<Link>): nat {
    if prev == [] || level == 1 then 1
    else if level == 2 then 2
    else if prev[|prev| - 1].depth == 1 then 2
    else 3
  }

  /** The links the outline panel should show for the headings `hs`, in document order. */
  function Expected(hs: seq<Heading>): seq<Link>
    decreases |hs|
  {
    if hs == [] then []
    else
      var i := |hs| - 1;
      var prev := Expected(hs[..i]);
      if IsPlacedLevel(hs[i].level)
      then prev + [Link(FinalId(hs[i], i), hs[i].text, DepthFor(hs[i].level, prev))]
      else prev
  }

  /** The positions in `hs` of the headings that get an outline entry. */
  function PlacedIndices(hs: seq<Heading>): seq<nat>
    decreases |hs|
  {
    if hs == [] then []
    else
      var i := |hs| - 1;
      if IsPlacedLevel(hs[i].level) then PlacedIndices(hs[..i]) + [i] else PlacedIndices(hs[..i])
  }

  /**
   * The entries are exactly the level-1 to level-3 headings, each once, in
   * document order: the positions are strictly increasing, and a position is
   * listed if and only if its heading has a placed level.
   */
  lemma {:induction false} PlacedIndicesExact(hs: seq<Heading>)
    ensures forall k, l | 0 <= k < l < |PlacedIndices(hs)| :: PlacedIndices(hs)[k] < PlacedIndices(hs)[l]
    ensures forall k | 0 <= k < |PlacedIndices(hs)| :: PlacedIndices(hs)[k] < |hs|
    ensures forall i | 0 <= i < |hs| :: i in PlacedIndices(hs) <==> IsPlacedLevel(hs[i].level)
    decreases |hs|
  {
    if hs != [] {
      var i := |hs| - 1;
      PlacedIndicesExact(hs[..i]);
      assert forall j | 0 <= j < i :: hs[..i][j] == hs[j];
    }
  }

  /**
   * Link k of `links` comes from the heading at position `at[k]`: it targets
   * that heading's final id, shows its text and sits at the depth the
   * placement rule gives after the links before it.
   */
  ghost predicate EntryFollows(hs: seq<Heading>, links: seq<Link>, at: seq<nat>, k: nat)
    requires k < |links| && k < |at|
  {
    && at[k] < |hs|
    && links[k].headingId == FinalId(hs[at[k]], at[k])
    && links[k].text == hs[at[k]].text
    && links[k].depth == DepthFor(hs[at[k]].level, links[..k])
  }

  /** Entry k of the outline is the heading at the k-th placed position, at the depth the rule gives. */
  lemma {:induction false} ExpectedFollowsHeadings(hs: seq<Heading>)
    ensures |Expected(hs)| == |PlacedIndices(hs)|
    ensures forall k | 0 <= k < |Expected(hs)| :: EntryFollows(hs, Expected(hs), PlacedIndices(hs), k)
    decreases |hs|
  {
    if hs != [] {
      var i := |hs| - 1;
      var pre := hs[..i];
      ExpectedFollowsHeadings(pre);
      var prev, at := Expected(pre), PlacedIndices(pre);
      var links, atAll := Expected(hs), PlacedIndices(hs);
      forall k | 0 <= k < |links| ensures EntryFollows(hs, links, atAll, k) {
        if k < |prev| {
          assert EntryFollows(pre, prev, at, k);
          assert links[k] == prev[k] && atAll[k] == at[k];
          assert hs[at[k]] == pre[at[k]];
          assert links[..k] == prev[..k];
        } else {
          assert links[..k] == prev;
        }
      }
    }
  }

  /**
   * The links form a valid nesting of at most three levels: the first is
   * top-level, each is at most one level deeper than the one before it, and
   * no depth exceeds 3.
   */
  lemma {:induction false} ExpectedWellNested(hs: seq<Heading>)
    ensures Expected(hs) != [] ==> Expected(hs)[0].depth == 1
    ensures forall k | 0 <= k < |Expected(hs)| :: 1 <= Expected(hs)[k].depth <= 3
    ensures forall k | 0 <= k < |Expected(hs)| - 1 :: Expected(hs)[k + 1].depth <= Expected(hs)[k].depth + 1
    decreases |hs|
  {
    if hs != [] {
      ExpectedWellNested(hs[..|hs| - 1]);
    }
  }

  /**
   * H1 "Intro", H2 "Setup", H1 "Next": two top-level entries, with "Setup"
   * under "Intro".
   */
  lemma IntroSetupNextExample()
    ensures var hs := [Heading(1, "Intro", Some("intro")), Heading(2, "Setup", Some("setup")),
                       Heading(1, "Next", Some("next"))];
      Expected(hs) == [Link("intro", "Intro", 1), Link("setup", "Setup", 2), Link("next", "Next", 1)]
  {
    var hs := [Heading(1, "Intro", Some("intro")), Heading(2, "Setup", Some("setup")),
               Heading(1, "Next", Some("next"))];
    assert hs[..1][..0] == [];
    assert Expected(hs[..1]) == [Link("intro", "Intro", 1)];
    assert hs[..2][..1] == hs[..1];
    assert Expected(hs[..2]) == [Link("intro", "Intro", 1), Link("setup", "Setup", 2)];
    assert hs[..3] == hs && hs[..2] == hs[..|hs| - 1];
  }

  /**
   * H1, H3, H3: the second level-3 heading goes under the first, the last
   * child of the last top-level entry, whatever that child's level; and an
   * H4 gets no entry.
   */
  lemma NestedThirdLevelExample()
    ensures var hs := [Heading(1, "A", Some("a")), Heading(3, "B", Some("b")),
                       Heading(3, "C", Some("c")), Heading(4, "D", Some("d"))];
      Expected(hs) == [Link("a", "A", 1), Link("b", "B", 2), Link("c", "C", 3)]
  {
    var hs := [Heading(1, "A", Some("a")), Heading(3, "B", Some("b")),
               Heading(3, "C", Some("c")), Heading(4, "D", Some("d"))];
    assert hs[..1][..0] == [];
    assert Expected(hs[..1]) == [Link("a", "A", 1)];
    assert hs[..2][..1] == hs[..1];
    assert Expected(hs[..2]) == [Link("a", "A", 1), Link("b", "B", 2)];
    assert hs[..3][..2] == hs[..2];
    assert Expected(hs[..3]) == [Link("a", "A", 1), Link("b", "B", 2), Link("c", "C", 3)];
    assert hs[..4] == hs && hs[..3] == hs[..|hs| - 1];
  }

  // ---------------------------------------------------------------------
  // The forest and its rendering.

  /** `renderTOC`: each item's link, then its children one level deeper, then its siblings. */
  function Render(items: seq<Node>, depth: nat): (r: seq<Link>)
    ensures r == [] <==> items == []
    decreases items
  {
    if items == [] then []
    else
      assert items[0] in items;
      [Link(items[0].id, items[0].text, depth)] + Render(items[0].children, depth + 1) + Render(items[1..], depth)
  }

  /** `parent.children.push(child)`. */
  function AddChild(parent: Node, child: Node): Node {
    parent.(children := parent.children + [child])
  }

  /** Pushes `child` onto the children of the last item of `items`. */
  function AppendToLast(items: seq<Node>, child: Node): seq<Node>
    requires items != []
  {
    items[|items| - 1 := AddChild(items[|items| - 1], child)]
  }

  /** Every item of the forest, at any depth, has level 1, 2 or 3. */
  predicate AllPlaced(items: seq<Node>)
    decreases items
  {
    forall k | 0 <= k < |items| :: IsPlacedLevel(items[k].level) && AllPlaced(items[k].children)
  }

  lemma {:induction false} RenderConcat(a: seq<Node>, b: seq<Node>, depth: nat)
    ensures Render(a + b, depth) == Render(a, depth) + Render(b, depth)
    decreases a
  {
    if a != [] {
      assert (a + b)[0] == a[0];
      assert (a + b)[1..] == a[1..] + b;
      RenderConcat(a[1..], b, depth);
      calc {
        Render(a + b, depth);
        [Link(a[0].id, a[0].text, depth)] + Render(a[0].children, depth + 1) + Render(a[1..] + b, depth);
        [Link(a[0].id, a[0].text, depth)] + Render(a[0].children, depth + 1) + Render(a[1..], depth) + Render(b, depth);
        Render(a, depth) + Render(b, depth);
      }
    } else {
      assert a + b == b;
    }
  }

  lemma AllPlacedConcat(a: seq<Node>, b: seq<Node>)
    requires AllPlaced(a) && AllPlaced(b)
    ensures AllPlaced(a + b)
  {
    forall k | 0 <= k < |a + b|
      ensures IsPlacedLevel((a + b)[k].level) && AllPlaced((a + b)[k].children)
    {
      if k < |a| { assert (a + b)[k] == a[k]; } else { assert (a + b)[k] == b[k - |a|]; }
    }
  }

  lemma AllPlacedAppendToLast(items: seq<Node>, child: Node)
    requires items != [] && AllPlaced(items)
    requires IsPlacedLevel(child.level) && AllPlaced(child.children)
    ensures AllPlaced(AppendToLast(items, child))
  {
    var last := items[|items| - 1];
    assert AllPlaced(last.children);
    AllPlacedConcat(last.children, [child]);
    var updated := AppendToLast(items, child);
    forall k | 0 <= k < |updated|
      ensures IsPlacedLevel(updated[k].level) && AllPlaced(updated[k].children)
    {
      if k < |items| - 1 { assert updated[k] == items[k]; }
    }
  }

  /** Appending one item to a forest appends its link and then its subtree. */
  lemma RenderSnoc(front: seq<Node>, last: Node, depth: nat)
    ensures Render(front + [last], depth)
      == Render(front, depth) + [Link(last.id, last.text, depth)] + Render(last.children, depth + 1)
  {
    RenderConcat(front, [last], depth);
    assert [last][1..] == [];
  }

  /** The last top-level item's subtree closes the rendering. */
  lemma RenderLast(items: seq<Node>, depth: nat)
    requires items != []
    ensures var last := items[|items| - 1];
      Render(items, depth) == Render(items[..|items| - 1], depth)
        + [Link(last.id, last.text, depth)] + Render(last.children, depth + 1)
  {
    var n := |items| - 1;
    assert items == items[..n] + [items[n]];
    RenderSnoc(items[..n], items[n], depth);
  }

  /** Pushing a leaf onto the last item's children appends one link, one level deeper. */
  lemma RenderAppendToLast(items: seq<Node>, child: Node, depth: nat)
    requires items != [] && child.children == []
    ensures Render(AppendToLast(items, child), depth)
      == Render(items, depth) + [Link(child.id, child.text, depth + 1)]
  {
    var n := |items| - 1;
    var last := items[n];
    var updated := AppendToLast(items, child);
    assert updated[..n] == items[..n];
    assert updated[n] == AddChild(last, child);
    var front := Render(items[..n], depth);
    var head := [Link(last.id, last.text, depth)];
    var leaf := [Link(child.id, child.text, depth + 1)];
    assert Render([child], depth + 1) == leaf by {
      assert [child][1..] == [];
    }
    RenderLast(items, depth);
    RenderLast(updated, depth);
    RenderConcat(last.children, [child], depth + 1);
    calc {
      Render(updated, depth);
      front + head + Render(last.children + [child], depth + 1);
      front + head + (Render(last.children, depth + 1) + leaf);
      (front + head + Render(last.children, depth + 1)) + leaf;
      Render(items, depth) + leaf;
    }
  }

  /** Pushing a leaf under the last child of the last item appends one link, two levels deeper. */
  lemma RenderAppendToLastChild(items: seq<Node>, child: Node, depth: nat)
    requires items != [] && items[|items| - 1].children != [] && child.children == []
    ensures var root := items[|items| - 1];
      Render(items[|items| - 1 := root.(children := AppendToLast(root.children, child))], depth)
        == Render(items, depth) + [Link(child.id, child.text, depth + 2)]
  {
    var n := |items| - 1;
    var root := items[n];
    var grown := root.(children := AppendToLast(root.children, child));
    var front := items[..n];
    assert items == front + [root];
    assert items[n := grown] == front + [grown];
    RenderSnoc(front, root, depth);
    RenderSnoc(front, grown, depth);
    RenderAppendToLast(root.children, child, depth + 1);
    var head := Render(front, depth) + [Link(root.id, root.text, depth)];
    var leaf := [Link(child.id, child.text, depth + 2)];
    assert Render(front + [grown], depth) == head + (Render(root.children, depth + 1) + leaf);
    assert head + (Render(root.children, depth + 1) + leaf) == (head + Render(root.children, depth + 1)) + leaf;
  }

  /** No rendered link is shallower than the depth the rendering starts at. */
  lemma {:induction false} RenderDepthAtLeast(items: seq<Node>, depth: nat)
    ensures forall k | 0 <= k < |Render(items, depth)| :: Render(items, depth)[k].depth >= depth
    decreases items
  {
    if items != [] {
      assert items[0] in items;
      RenderDepthAtLeast(items[0].children, depth + 1);
      RenderDepthAtLeast(items[1..], depth);
    }
  }

  /** The last link is top-level exactly when the last top-level item has no children. */
  lemma RenderLastDepth(items: seq<Node>, depth: nat)
    requires items != []
    ensures var r := Render(items, depth);
      r[|r| - 1].depth == depth <==> items[|items| - 1].children == []
  {
    var last := items[|items| - 1];
    RenderLast(items, depth);
    RenderDepthAtLeast(last.children, depth + 1);
  }

  /**
   * One step of the placement loop (blog.js:210-231): a level-1 item starts
   * a new top-level entry; a level-2 item goes under the last top-level
   * entry, or starts one if there is none; a level-3 item goes under the last
   * child of the last top-level entry, or under that entry itself when it has
   * no children, or starts one; any other level is dropped.
   */
  function Place(forest: seq<Node>, item: Node): (r: seq<Node>)
    ensures !IsPlacedLevel(item.level) ==> r == forest
    ensures |r| == |forest| + 1 <==> IsPlacedLevel(item.level) && (item.level == 1 || forest == [])
    ensures |r| == |forest| + 1 ==> r == forest + [item]
    ensures |r| != |forest| + 1 ==> |r| == |forest| && (forest != [] ==> r[..|forest| - 1] == forest[..|forest| - 1])
  {
    if item.level == 1 then forest + [item]
    else if item.level == 2 then
      if |forest| > 0 then AppendToLast(forest, item) else forest + [item]
    else if item.level == 3 then
      if |forest| > 0 then
        var root := forest[|forest| - 1];
        if |root.children| > 0
        then forest[|forest| - 1 := root.(children := AppendToLast(root.children, item))]
        else AppendToLast(forest, item)
      else forest + [item]
    else forest
  }

  /**
   * Placing an item of level 1 to 3 adds exactly its link to the rendering,
   * at the depth the placement rule gives; any other level changes nothing.
   */
  lemma PlaceRendersOneLink(forest: seq<Node>, item: Node)
    requires item.children == []
    ensures IsPlacedLevel(item.level) ==>
      Render(Place(forest, item), 1)
        == Render(forest, 1) + [Link(item.id, item.text, DepthFor(item.level, Render(forest, 1)))]
    ensures !IsPlacedLevel(item.level) ==> Place(forest, item) == forest
  {
    var link := Link(item.id, item.text, 1);
    if IsPlacedLevel(item.level) && forest == [] {
      assert Place(forest, item) == [item];
      assert Render([item], 1) == [link] by {
        assert [item][1..] == [];
      }
    } else if item.level == 1 {
      RenderConcat(forest, [item], 1);
      assert Render([item], 1) == [link] by {
        assert [item][1..] == [];
      }
    } else if item.level == 2 {
      RenderAppendToLast(forest, item, 1);
    } else if item.level == 3 {
      RenderLastDepth(forest, 1);
      if |forest[|forest| - 1].children| > 0 {
        RenderAppendToLastChild(forest, item, 1);
      } else {
        RenderAppendToLast(forest, item, 1);
      }
    }
  }

  /** Placing keeps every level in the forest between 1 and 3. */
  lemma PlaceKeepsLevels(forest: seq<Node>, item: Node)
    requires AllPlaced(forest) && item.children == []
    ensures AllPlaced(Place(forest, item))
  {
    assert AllPlaced(item.children);
    if !IsPlacedLevel(item.level) {
    } else if forest == [] || item.level == 1 {
      AllPlacedConcat(forest, [item]);
    } else if item.level == 2 || |forest[|forest| - 1].children| == 0 {
      AllPlacedAppendToLast(forest, item);
    } else {
      var root := forest[|forest| - 1];
      assert AllPlaced(root.children);
      AllPlacedAppendToLast(root.children, item);
      var newRoot := root.(children := AppendToLast(root.children, item));
      AllPlacedConcat(forest[..|forest| - 1], [newRoot]);
      assert forest[|forest| - 1 := newRoot] == forest[..|forest| - 1] + [newRoot];
    }
  }

  /** The forest item built for heading `i`: its level, its text and its final id, no children yet. */
  function ItemFor(hs: seq<Heading>, i: nat): Node
    requires i < |hs|
  {
    Node(hs[i].level, hs[i].text, FinalId(hs[i], i), [])
  }

  /** Placing heading `i` extends a forest that renders the first `i` headings to one that renders `i + 1`. */
  lemma PlaceExtendsOutline(hs: seq<Heading>, i: nat, forest: seq<Node>)
    requires i < |hs| && AllPlaced(forest) && Render(forest, 1) == Expected(hs[..i])
    ensures Render(Place(forest, ItemFor(hs, i)), 1) == Expected(hs[..i + 1])
    ensures AllPlaced(Place(forest, ItemFor(hs, i)))
  {
    assert hs[..i + 1][..i] == hs[..i];
    assert hs[..i + 1][i] == hs[i];
    PlaceRendersOneLink(forest, ItemFor(hs, i));
    PlaceKeepsLevels(forest, ItemFor(hs, i));
  }

  /** Writing heading `i`'s final id extends the ids written for the first `i` headings. */
  lemma IdsWrittenSnoc(hs: seq<Heading>, i: nat, ids: seq<string>)
    requires i < |hs| && IdsWritten(hs[..i], ids)
    ensures IdsWritten(hs[..i + 1], ids + [FinalId(hs[i], i)])
  {
    assert forall j | 0 <= j < i :: hs[..i + 1][j] == hs[..i][j];
  }

  /**
   * The loop of generateTOC (blog.js:186-232): gives every heading its final
   * id and places it in the forest. The forest renders exactly as the
   * reference outline.
   */
  method BuildOutline(hs: seq<Heading>) returns (forest: seq<Node>, ids: seq<string>)
    ensures Render(forest, 1) == Expected(hs)
    ensures AllPlaced(forest)
    ensures IdsWritten(hs, ids)
  {
    forest, ids := [], [];
    for i := 0 to |hs|
      invariant Render(forest, 1) == Expected(hs[..i])
      invariant AllPlaced(forest)
      invariant IdsWritten(hs[..i], ids)
    {
      PlaceExtendsOutline(hs, i, forest);
      forest := Place(forest, ItemFor(hs, i));
      IdsWrittenSnoc(hs, i, ids);
      ids := ids + [FinalId(hs[i], i)];
    }
    assert hs[..|hs|] == hs;
  }

  /** `ids[i]` is the id heading `i` carries once the outline is generated. */
  predicate IdsWritten(hs: seq<Heading>, ids: seq<string>) {
    |ids| == |hs| && forall i | 0 <= i < |hs| :: ids[i] == FinalId(hs[i], i)
  }

  /**
   * generateTOC: an empty heading list shows the "No headings found" item;
   * otherwise every heading gets its final id and the panel shows the
   * reference outline.
   */
  method GenerateToc(hs: seq<Heading>) returns (ids: seq<string>, toc: Toc)
    ensures toc == NoHeadings <==> hs == []
    ensures hs != [] ==> toc == Links(Expected(hs))
    ensures IdsWritten(hs, ids)
  {
    if |hs| == 0 {
      return [], NoHeadings;
    }
    var forest;
    forest, ids := BuildOutline(hs);
    toc := Links(Render(forest, 1));
  }
}
