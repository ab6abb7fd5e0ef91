/**
 The "On This Page" outline of a rendered blog post: the `h2`-`h6` headings of
 the post's HTML, in document order, each turned into an entry with an id, a
 text and a level, and each entry rendered as an in-page link indented by its
 level.

 The parsed document is given as the sequence of its elements in document
 order, which is the order in which `querySelectorAll` returns its matches.
 */
module OnThisPage {
  import opened Slugs

  /** An element of the parsed document: its tag name, its `id` attribute (the
      empty string when it has none) and its text content. */
  datatype Element = Element(tagName: string, id: string, textContent: string)

  /** An outline entry. */
  datatype Heading = Heading(id: string, text: string, level: int)

  /** One item of the rendered list: its React key, the link target, the left
      padding (in the units of the `pl-` class) and the link text. */
  datatype Item = Item(key: string, href: string, indent: int, text: string)

  /** The selector `h2, h3, h4, h5, h6`. In an HTML document a type selector
      matches the tag name regardless of ASCII case (`tagName` itself reads
      `H2`, `H3`, ...). */
  predicate IsOutlineTag(tagName: string)
  {
    |tagName| == 2 && (tagName[0] == 'h' || tagName[0] == 'H') && '2' <= tagName[1] <= '6'
  }

  predicate Selected(e: Element)
  {
    IsOutlineTag(e.tagName)
  }

  const Digits: string := "0123456789"

  /** `parseInt(tagName[1])`: the heading level is the digit after the `h`. */
  function TagLevel(tagName: string): (level: int)
    requires IsOutlineTag(tagName)
    ensures 2 <= level <= 6
    ensures Digits[level] == tagName[1]
  {
    tagName[1] as int - '0' as int
  }

  /** The entry built for one selected element. The element's own id wins when
      it is not empty; otherwise the id is the slug of the text. The text is
      the element's text content (never null for an element, so the `|| ""`
      default only ever yields the content itself). */
  function Entry(e: Element): (h: Heading)
    requires Selected(e)
    ensures 2 <= h.level <= 6
  {
    Heading(if e.id != "" then e.id else Slug(e.textContent), e.textContent, TagLevel(e.tagName))
  }

  /** The `headings` array: the selected elements, in order, each mapped to
      its entry. */
  function Outline(doc: seq<Element>): (hs: seq<Heading>)
    ensures |hs| <= |doc|
    ensures forall k :: 0 <= k < |hs| ==> 2 <= hs[k].level <= 6
  {
    if doc == [] then []
    else (if Selected(doc[0]) then [Entry(doc[0])] else []) + Outline(doc[1..])
  }

  /** The indices of the selected elements of `doc`, in increasing order: an
      index is listed exactly when the element at it is selected. */
  function Positions(doc: seq<Element>): (ps: seq<nat>)
    ensures forall k :: 0 <= k < |ps| ==> ps[k] < |doc| && Selected(doc[ps[k]])
    ensures forall k, l :: 0 <= k < l < |ps| ==> ps[k] < ps[l]
    ensures forall i :: 0 <= i < |doc| && Selected(doc[i]) ==> i in ps
  {
    if doc == [] then []
    else
      var n := |doc| - 1;
      var ps := Positions(doc[..n]);
      assert forall k :: 0 <= k < |ps| ==> doc[ps[k]] == doc[..n][ps[k]];
      assert forall i :: 0 <= i < n ==> doc[i] == doc[..n][i];
      ps + (if Selected(doc[n]) then [n] else [])
  }

  // ---------------------------------------------------------------------------
  // The outline

  /** The outline of a concatenation is the concatenation of the outlines. */
  lemma {:induction false} OutlineAppend(a: seq<Element>, b: seq<Element>)
    ensures Outline(a + b) == Outline(a) + Outline(b)
  {
    if a == [] {
      assert a + b == b;
    } else {
      var head := if Selected(a[0]) then [Entry(a[0])] else [];
      assert (a + b)[0] == a[0];
      assert (a + b)[1..] == a[1..] + b;
      assert Outline(a + b) == head + Outline(a[1..] + b);
      OutlineAppend(a[1..], b);
      assert head + (Outline(a[1..]) + Outline(b)) == (head + Outline(a[1..])) + Outline(b);
    }
  }

  /** Elements the selector does not match (an `h1`, a paragraph, ...)
      contribute nothing, wherever they stand. */
  lemma OutlineSkips(a: seq<Element>, e: Element, b: seq<Element>)
    requires !Selected(e)
    ensures Outline(a + [e] + b) == Outline(a + b)
  {
    OutlineAppend(a + [e], b);
    OutlineAppend(a, [e]);
    OutlineAppend(a, b);
    assert Outline([e]) == [] by {
      assert [e][1..] == [];
    }
  }

  /** The outline has exactly one entry per selected element, in document
      order: its k-th entry comes from the k-th selected element. */
  lemma {:induction false} OutlineOrder(doc: seq<Element>)
    ensures |Outline(doc)| == |Positions(doc)|
    ensures forall k :: 0 <= k < |Positions(doc)| ==> Outline(doc)[k] == Entry(doc[Positions(doc)[k]])
  {
    if doc != [] {
      var n := |doc| - 1;
      assert doc == doc[..n] + [doc[n]];
      OutlineAppend(doc[..n], [doc[n]]);
      OutlineOrder(doc[..n]);
      assert [doc[n]][1..] == [];
      var ps := Positions(doc[..n]);
      forall k | 0 <= k < |ps| ensures doc[..n][ps[k]] == doc[ps[k]] {
      }
    }
  }

  /** What each entry holds, for the element it comes from: the element's own
      id, unchanged, when it is not empty, and otherwise the slug of its text;
      the element's text; and the level named by its tag. */
  lemma OutlineEntries(doc: seq<Element>, k: nat)
    requires k < |Positions(doc)|
    ensures k < |Outline(doc)|
    ensures doc[Positions(doc)[k]].id != "" ==> Outline(doc)[k].id == doc[Positions(doc)[k]].id
    ensures doc[Positions(doc)[k]].id == "" ==> Outline(doc)[k].id == Slug(doc[Positions(doc)[k]].textContent)
    ensures Outline(doc)[k].text == doc[Positions(doc)[k]].textContent
    ensures Outline(doc)[k].level == TagLevel(doc[Positions(doc)[k]].tagName)
  {
    OutlineOrder(doc);
  }

  /** The outline is empty exactly when no element is an `h2`-`h6`. */
  lemma {:induction false} OutlineEmpty(doc: seq<Element>)
    ensures Outline(doc) == [] <==> forall i :: 0 <= i < |doc| ==> !Selected(doc[i])
  {
    OutlineOrder(doc);
    if Outline(doc) != [] {
      assert Selected(doc[Positions(doc)[0]]);
    }
  }

  /** No de-duplication: two headings without an id of their own and with the
      same text get the same id. */
  lemma SameTextSameId(doc: seq<Element>, k: nat, l: nat)
    requires k < |Positions(doc)| && l < |Positions(doc)|
    requires doc[Positions(doc)[k]].id == "" && doc[Positions(doc)[l]].id == ""
    requires doc[Positions(doc)[k]].textContent == doc[Positions(doc)[l]].textContent
    ensures k < |Outline(doc)| && l < |Outline(doc)|
    ensures Outline(doc)[k].id == Outline(doc)[l].id
  {
    OutlineEntries(doc, k);
    OutlineEntries(doc, l);
  }

  /** An entry's id is either an id the document already carries or a slug,
      which holds no white space and no upper-case ASCII letter. */
  lemma OutlineIds(doc: seq<Element>, k: nat)
    requires k < |Outline(doc)|
    ensures (exists i :: 0 <= i < |doc| && doc[i].id != "" && doc[i].id == Outline(doc)[k].id)
         || (NoSpace(Outline(doc)[k].id) && NoUpper(Outline(doc)[k].id))
  {
    OutlineOrder(doc);
    OutlineEntries(doc, k);
  }

  // ---------------------------------------------------------------------------
  // The rendered list

  /** The indentation of a level: `(level - 2) * 4`. */
  function Indent(level: int): (w: int)
    requires 2 <= level <= 6
    ensures w in {0, 4, 8, 12, 16}
    ensures w % 4 == 0 && w / 4 + 2 == level
  {
    (level - 2) * 4
  }

  /** The link target of an id: `#` followed by the id. */
  function Href(id: string): (r: string)
    ensures |r| == |id| + 1 && r[0] == '#' && r[1..] == id
  {
    "#" + id
  }

  /** One list item: keyed by the entry's id, linking to it, indented by its
      level and labelled with its text. */
  function RenderItem(h: Heading): (it: Item)
    requires 2 <= h.level <= 6
    ensures |it.href| == |h.id| + 1 && it.href[0] == '#' && it.href[1..] == it.key == h.id
    ensures it.indent / 4 + 2 == h.level && it.text == h.text
  {
    Item(h.id, Href(h.id), Indent(h.level), h.text)
  }

  /** `headings.map(...)`: one list item per entry, in the same order. */
  function Render(hs: seq<Heading>): (items: seq<Item>)
    requires forall k :: 0 <= k < |hs| ==> 2 <= hs[k].level <= 6
    ensures |items| == |hs|
    ensures forall k :: 0 <= k < |hs| ==> items[k] == RenderItem(hs[k])
  {
    if hs == [] then [] else [RenderItem(hs[0])] + Render(hs[1..])
  }

  /** The list the component renders for a document. */
  function OutlineItems(doc: seq<Element>): (items: seq<Item>)
    ensures |items| <= |doc|
  {
    Render(Outline(doc))
  }

  /** The k-th rendered item belongs to the k-th selected element: keyed by
      the entry's id, linking to `#` and that id, indented by 0, 4, 8, 12 or
      16 according to the element's tag, and labelled with its text. */
  lemma RenderedItems(doc: seq<Element>, k: nat)
    requires k < |Positions(doc)|
    ensures |OutlineItems(doc)| == |Positions(doc)|
    ensures OutlineItems(doc)[k].key == Outline(doc)[k].id
    ensures OutlineItems(doc)[k].href == "#" + Outline(doc)[k].id
    ensures OutlineItems(doc)[k].indent == (TagLevel(doc[Positions(doc)[k]].tagName) - 2) * 4
    ensures OutlineItems(doc)[k].indent in {0, 4, 8, 12, 16}
    ensures OutlineItems(doc)[k].text == doc[Positions(doc)[k]].textContent
  {
    OutlineOrder(doc);
    OutlineEntries(doc, k);
  }

  // ---------------------------------------------------------------------------
  // Link targets

  /** A fragment `#id` leads to an element when the id is not empty and some
      element carries it. */
  predicate HasTarget(doc: seq<Element>, id: string)
  {
    id != "" && exists i :: 0 <= i < |doc| && doc[i].id == id
  }

  /** As the component is written, a heading without an id gets a link to a
      slug that no element of the document carries. */
  lemma DanglingLink()
    ensures var doc := [Element("H2", "", "Intro")];
      && OutlineItems(doc) == [Item("intro", "#" + "intro", 0, "Intro")]
      && !HasTarget(doc, "intro")
  {
    IntroOutline();
    var h := Heading("intro", "Intro", 2);
    var items := Render([h]);
    assert |items| == 1 && items[0] == RenderItem(h);
    var doc := [Element("H2", "", "Intro")];
    assert OutlineItems(doc) == items;
    assert !HasTarget(doc, "intro") by {
      assert |doc| == 1 && doc[0].id == [];
      assert "intro" != [];
    }
  }

  lemma IntroOutline()
    ensures Outline([Element("H2", "", "Intro")]) == [Heading("intro", "Intro", 2)]
  {
    var e := Element("H2", "", "Intro");
    SlugOfIntro();
    assert TagLevel(e.tagName) == 2;
    assert Entry(e) == Heading("intro", "Intro", 2);
    OutlineOfOne(e);
  }

  lemma OutlineOfOne(e: Element)
    ensures Outline([e]) == if Selected(e) then [Entry(e)] else []
  {
    assert [e][1..] == [];
  }

  /** Two headings titled alike, at different levels and without ids, get the
      same id: there is no `-2` suffix or other collision rule. */
  lemma DuplicateTitles()
    ensures Outline([Element("H2", "", "Intro"), Element("h3", "", "Intro")])
         == [Heading("intro", "Intro", 2), Heading("intro", "Intro", 3)]
  {
    var a, b := Element("H2", "", "Intro"), Element("h3", "", "Intro");
    assert [a, b] == [a] + [b];
    OutlineAppend([a], [b]);
    SlugOfIntro();
    OutlineOfOne(a);
    assert Entry(a) == Heading("intro", "Intro", 2);
    OutlineOfOne(b);
    assert Entry(b) == Heading("intro", "Intro", 3);
  }

  lemma SlugOfIntro()
    ensures Slug("Intro") == "intro"
  {
    var t := "Intro";
    assert NoSpace(t) by {
      forall i | 0 <= i < |t| ensures !IsSpace(t[i]) {
        assert t[i] in "Intro";
      }
    }
    ReplaceSpaceRunsFixpoint(t);
    LowerAt(t);
    assert Lower(t) == "intro";
  }

  /** An element with its outline id written onto it: a selected element
      without an id receives the slug of its text; every other element stays
      as it is. */
  function Anchor(e: Element): (a: Element)
    ensures a.tagName == e.tagName && a.textContent == e.textContent
    ensures Selected(e) ==> a.id == Entry(e).id
    ensures !Selected(e) ==> a == e
  {
    if Selected(e) && e.id == "" then Element(e.tagName, Slug(e.textContent), e.textContent) else e
  }

  /** The document with every outline id written onto its heading. */
  function Anchored(doc: seq<Element>): (r: seq<Element>)
    ensures |r| == |doc|
    ensures forall i :: 0 <= i < |doc| ==> r[i] == Anchor(doc[i])
  {
    if doc == [] then [] else [Anchor(doc[0])] + Anchored(doc[1..])
  }

  /** Writing the ids onto the headings does not change the outline: each
      heading now carries the id its entry used already. */
  lemma {:induction false} AnchoredOutline(doc: seq<Element>)
    ensures Outline(Anchored(doc)) == Outline(doc)
  {
    if doc != [] {
      var a := Anchored(doc);
      assert a[1..] == Anchored(doc[1..]);
      AnchoredOutline(doc[1..]);
      if Selected(doc[0]) {
        assert Entry(a[0]) == Entry(doc[0]);
      }
    }
  }

  /** With the ids written onto the headings, every link of the outline
      targets the very heading it was built from, and that target exists
      unless the heading has neither an id nor any text (its link is then a
      bare `#`). */
  lemma AnchoredLinksResolve(doc: seq<Element>, k: nat)
    requires k < |Positions(doc)|
    ensures Positions(Anchored(doc)) == Positions(doc)
    ensures k < |OutlineItems(Anchored(doc))|
    ensures OutlineItems(Anchored(doc))[k].href == "#" + Anchored(doc)[Positions(doc)[k]].id
    ensures doc[Positions(doc)[k]].id != "" || doc[Positions(doc)[k]].textContent != "" ==>
      HasTarget(Anchored(doc), OutlineItems(Anchored(doc))[k].href[1..])
  {
    AnchoredPositions(doc);
    AnchoredOutline(doc);
    RenderedItems(doc, k);
    OutlineEntries(doc, k);
    var i := Positions(doc)[k];
    assert Anchored(doc)[i].id == Outline(doc)[k].id;
    if doc[i].id == "" && doc[i].textContent != "" {
      SlugEdges(doc[i].textContent);
    }
  }

  lemma {:induction false} AnchoredPositions(doc: seq<Element>)
    ensures Positions(Anchored(doc)) == Positions(doc)
  {
    if doc != [] {
      var n := |doc| - 1;
      assert doc == doc[..n] + [doc[n]];
      AnchoredAppend(doc[..n], [doc[n]]);
      assert Anchored(doc)[..n] == Anchored(doc[..n]);
      AnchoredPositions(doc[..n]);
    }
  }

  lemma {:induction false} AnchoredAppend(a: seq<Element>, b: seq<Element>)
    ensures Anchored(a + b) == Anchored(a) + Anchored(b)
  {
    if a == [] {
      assert a + b == b;
    } else {
      assert (a + b)[0] == a[0];
      assert (a + b)[1..] == a[1..] + b;
      AnchoredAppend(a[1..], b);
    }
  }
}
