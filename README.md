# "On This Page" heading outline

A model of the outline that the blog's `OnThisPage` component builds from a post's
HTML. The component picks the `h2`–`h6` headings of the document in document order.
Each one becomes an entry `{id, text, level}`:

- `id` is the heading's own `id` when that is not empty. Otherwise it is a slug of the
  heading text: each maximal run of white space becomes one `-`, and the result is
  lower-cased.
- `text` is the heading's text content.
- `level` is the digit after the `h` of the tag name.

Each entry is then rendered as a list item keyed by the id. The item links to `#` + id
and is indented by `(level - 2) * 4`.

The model has two modules:

- `Slugs` (`slug.dfy`) holds the white-space-run replace, ASCII lower-casing and the
  slug built from them. Its lemmas show the slug has no white space and no upper-case
  letter, never grows, and is idempotent. They also show nothing else is trimmed or
  removed, and the slug works piecewise, one run at a time.
- `OnThisPage` (`on_this_page.dfy`) holds the element filter, the entry mapping, the
  outline and the rendered items. Its lemmas show the outline has exactly one entry per
  selected element, in document order, with the id, text and level stated for each.
  Entries get no de-duplication. The indent takes one of five values and the link
  target is `#` + id.

The parsed document is an input: the sequence of its elements in document order, each
with a tag name, an `id` (empty when absent) and a text content. This is the order in
which `querySelectorAll` returns matches.

The component strips no characters, does not trim, resolves no id collisions and skips
`h1` (`ReplaceSpaceRunsEdges`, `SameTextSameId`, `DuplicateTitles`, `OutlineSkips`).

## Model

| member | source | states |
|---|---|---|
| `Slugs.IsSpace` | components/OnThisPage.tsx:17 | the characters the `\s` of the regular expression matches; a predicate with no contract, used by every `Slugs` lemma below |
| `Slugs.ReplaceSpaceRuns` | components/OnThisPage.tsx:17 | `replace(/\s+/g, "-")`; the result is never longer than the text; specified by `ReplaceSpaceRunsShape`, `ReplaceRun`, `ReplaceSpaceRunsFixpoint`, `ReplaceSpaceRunsAppend` and `ReplaceSpaceRunsEdges` |
| `Slugs.Lower` | components/OnThisPage.tsx:17 | `toLowerCase()`; keeps the length; specified character by character by `LowerAt` and `LowerChar`, and by `LowerShape` and `LowerIdempotent` |
| `Slugs.ReplaceSpaceRunsShape` | components/OnThisPage.tsx:17 | after `replace(/\s+/g, "-")` the text holds no white space and is no longer than before |
| `Slugs.ReplaceRun` | components/OnThisPage.tsx:17 | a maximal white-space run of any length and any mix of white-space characters becomes exactly one `-` |
| `Slugs.ReplaceSpaceRunsFixpoint` | components/OnThisPage.tsx:17 | the replace leaves a text unchanged if and only if it has no white space, so it removes no other character |
| `Slugs.ReplaceSpaceRunsAppend` | components/OnThisPage.tsx:17 | the replace of a concatenation is the concatenation of the replaces, when the split is not inside a white-space run |
| `Slugs.ReplaceSpaceRunsEdges` | components/OnThisPage.tsx:17 | no trimming: leading or trailing white space gives a leading or trailing `-`, and any other first or last character is kept |
| `Slugs.LowerChar` | components/OnThisPage.tsx:17 | `A`–`Z` become the matching letter of `a`–`z` (checked against the alphabet table); every other character is unchanged; the result is never upper-case and is white space exactly when the original is |
| `Slugs.LowerAt` | components/OnThisPage.tsx:17 | `toLowerCase` keeps the length and maps each character on its own |
| `Slugs.LowerShape` | components/OnThisPage.tsx:17 | lower-casing keeps the length, leaves no upper-case letter, keeps each white-space character at its position (and no new one appears), and changes a text only when the text has an upper-case letter |
| `Slugs.LowerIdempotent` | components/OnThisPage.tsx:17 | lower-casing twice is lower-casing once |
| `Slugs.Slug` | components/OnThisPage.tsx:17 | a derived id has no white space and no upper-case letter and is no longer than the text |
| `Slugs.SlugFixpoint` | components/OnThisPage.tsx:17 | a text is its own slug if and only if it has no white space and no upper-case letter |
| `Slugs.SlugIdempotent` | components/OnThisPage.tsx:17 | deriving a slug from a slug returns the same string |
| `Slugs.SlugEdges` | components/OnThisPage.tsx:17 | a non-empty text gives a non-empty slug; leading or trailing white space gives a leading or trailing `-`, otherwise the lower-cased first or last character |
| `Slugs.SlugAppend` | components/OnThisPage.tsx:17 | the slug is computed piecewise, when the split is not inside a white-space run |
| `Slugs.SlugOfRun` | components/OnThisPage.tsx:17 | a white-space run between two parts becomes one `-` between their slugs |
| `OnThisPage.IsOutlineTag` | components/OnThisPage.tsx:15 | the selector `h2, h3, h4, h5, h6` on a tag name, in either case; a predicate with no contract, used by `Positions`, `OutlineOrder`, `OutlineSkips` and `OutlineEmpty` |
| `OnThisPage.Selected` | components/OnThisPage.tsx:14-15 | an element the selector matches; a predicate with no contract, specified through `Positions` and `OutlineOrder` |
| `OnThisPage.TagLevel` | components/OnThisPage.tsx:19 | the level parsed from a selected tag name is in 2..6 and is the digit at index 1 of the name |
| `OnThisPage.Entry` | components/OnThisPage.tsx:16-20 | an entry's level is in 2..6 |
| `OnThisPage.Outline` | components/OnThisPage.tsx:14-20 | the outline has no more entries than the document has elements, and every level is in 2..6 |
| `OnThisPage.Positions` | components/OnThisPage.tsx:14-15 | the indices of the `h2`–`h6` elements, strictly increasing; an index is listed exactly when its element is selected |
| `OnThisPage.OutlineAppend` | components/OnThisPage.tsx:14-20 | the outline of a concatenation of documents is the concatenation of their outlines, so document order is kept |
| `OnThisPage.OutlineSkips` | components/OnThisPage.tsx:14-15 | an element the selector does not match (an `h1`, a paragraph) adds nothing, wherever it stands |
| `OnThisPage.OutlineOrder` | components/OnThisPage.tsx:14-20 | exactly one entry per `h2`–`h6` element, in document order: the k-th entry is built from the k-th selected element |
| `OnThisPage.OutlineEntries` | components/OnThisPage.tsx:16-20 | the k-th entry's id is the element's own id, unchanged, when that is not empty, and the slug of its text otherwise; its text is the element's text, and its level is the one its tag names |
| `OnThisPage.OutlineEmpty` | components/OnThisPage.tsx:14-15 | the outline is empty if and only if no element is an `h2`–`h6` |
| `OnThisPage.SameTextSameId` | components/OnThisPage.tsx:16-17 | two headings without ids and with the same text get the same id |
| `OnThisPage.OutlineIds` | components/OnThisPage.tsx:17 | every entry id is either a non-empty id that an element carries, or a string with no white space and no upper-case letter |
| `OnThisPage.DuplicateTitles` | components/OnThisPage.tsx:16-19 | an `h2` and an `h3` both titled `Intro` without ids both get the id `intro`, with levels 2 and 3 |
| `OnThisPage.Indent` | components/OnThisPage.tsx:29 | the indent `(level - 2) * 4` is one of 0, 4, 8, 12, 16, and the level can be recovered from it |
| `OnThisPage.Href` | components/OnThisPage.tsx:31 | the link target is `#` followed by the id, and the id can be recovered from it |
| `OnThisPage.Render` | components/OnThisPage.tsx:26-35 | one list item per entry, in the same order |
| `OnThisPage.RenderItem` | components/OnThisPage.tsx:27-33 | one list item: its key is the entry's id, its link is `#` followed by that key, its indent recovers the entry's level and its text is the entry's text |
| `OnThisPage.OutlineItems` | components/OnThisPage.tsx:14-35 | the whole rendered list: one item per `h2`–`h6` element of the document, so never more items than elements; specified item by item by `RenderedItems` |
| `OnThisPage.RenderedItems` | components/OnThisPage.tsx:26-33 | the k-th list item is keyed by the k-th entry's id and links to `#` + that id; its indent is `(level - 2) * 4` for the k-th selected element's tag, one of 0, 4, 8, 12, 16; its text is that element's text |
| `OnThisPage.DanglingLink` | components/OnThisPage.tsx:17-31 | for a document whose only element is `<h2>Intro</h2>`, the list is one item linking to `#intro`, yet no element carries the id `intro` |
| `OnThisPage.Anchor` | components/OnThisPage.tsx:16-17 | corrected behaviour, see Findings: an element with its outline id written onto it: a selected element's id becomes its entry's id; tag and text are kept, and an unselected element is unchanged |
| `OnThisPage.Anchored` | components/OnThisPage.tsx:14-17 | corrected behaviour, see Findings: the document with that change made to every element, one for one |
| `OnThisPage.AnchoredOutline` | components/OnThisPage.tsx:14-20 | corrected behaviour, see Findings: writing those ids into the document does not change its outline |
| `OnThisPage.AnchoredPositions` | components/OnThisPage.tsx:14-15 | corrected behaviour, see Findings: writing those ids into the document selects the same elements |
| `OnThisPage.AnchoredLinksResolve` | components/OnThisPage.tsx:17-31 | corrected behaviour, see Findings: in the document with ids written in, each item links to the id of the heading it was built from, and that target exists unless the heading has neither an id nor any text |

## Findings

| source | as written | input that shows it | evidently intended | confidence | as-written member | corrected member |
|---|---|---|---|---|---|---|
| components/OnThisPage.tsx:17-31 | the id made up for a heading without one is used only in the outline link; it is never written onto the heading, so the link target `#slug` does not exist in the document | an HTML post whose only heading is `<h2>Intro</h2>`: the outline links to `#intro` and no element has the id `intro` | the made-up id should also be the heading's anchor, so the link jumps to the heading (the comment on line 17 says the id is generated when it is missing) | medium; not executed | `OnThisPage.DanglingLink` | `OnThisPage.AnchoredLinksResolve` |

## Left out

- HTML parsing (`DOMParser`, lines 10-11) and the selector query (lines 14-15) are browser code. The model takes their result as an input: the elements of the document in document order.
- The `?.` and `|| ""` defaults on `textContent` (lines 17-18) are modelled as identity. An element's `textContent` is never null, and `"" || ""` is `""`.
- `Slugs.Lower`: only ASCII `A`–`Z` are folded. JavaScript `toLowerCase` folds all of Unicode and can change a string's length (`İ` becomes two code units). So `Slugs.Slug`'s length bound and its "no upper-case" clause speak of this ASCII folding only.
- `Slugs.IsSpace` is the fixed set of ECMAScript `\s` characters: TAB, LF, VT, FF, CR, space, U+00A0, U+1680, U+2000–U+200A, U+2028, U+2029, U+202F, U+205F, U+3000 and U+FEFF. All are single UTF-16 code units, so the code-unit view of JavaScript and the character view of the model agree.
- The `pl-${…}` Tailwind class string (line 29) and all other markup are left out. The model keeps only the indent number. Whether Tailwind defines the resulting class is not modelled.
- Duplicate React keys (line 28), when two entries share an id, are not modelled. React warns about them at run time.
- `parseInt` is modelled only on the characters the selector admits (`2`–`6`).
- The other files are outside this model. They are the blog listing and post pages (file reading, front matter via `gray-matter`, the `unified` markdown pipeline), the contact form, the navigation bar's loading timer, the `Typed.js` animation and the static sections.
