# Table of contents for a documentation page

`assets/js/toc.js` builds the "On this page" navigation of a documentation
site. It collects the `h2` and `h3` headings of the page's content
container in document order. It gives every heading that has no `id` one
derived from its text: `slugify`, then `-2`, `-3`, ... until no element of
the document carries that id. It then lays out the headings as a two-level
list:

- an `h2` opens an item with a sublist of its own;
- an `h3` goes into the sublist of the last `h2` before it;
- an `h3` that no `h2` precedes goes into the top-level list.

This project models `slugify` and `buildToc` without the DOM work:

- `decimal.dfy` (module `Decimal`): how JavaScript renders the counter `i`
  when it is concatenated to the id (`base + '-' + i`).
- `slug.dfy` (module `Slug`): `slugify`, step by step, as functions on
  strings. Proved about it:
  - its result is always a slug: `[a-z0-9-]*` with no `--`;
  - it is idempotent;
  - it keeps every lowercase letter and digit, in order;
  - its result is empty exactly when the trimmed text has no kept character;
  - it equals a simpler per-character definition.
- `toc.dfy` (module `Toc`):
  - The probing loop: the function `UniqueId` and the method `ResolveId`,
    which is proved equal to it.
  - The id pass over the headings (`AssignIds`), with the uniqueness of the
    ids it gives out.
  - The tree the script builds (`Tree`), its reading-order flattening, and
    where each `h2` and each orphan `h3` lands.
  - The class `Page`, whose `BuildToc` loop updates the page's ids and
    headings in place. It is proved to leave exactly what `AssignIds`
    gives and to return exactly `Tree` of the updated headings.

Two behaviours of the code a reader might not expect:

- The fallback text `section` replaces only an empty `textContent`
  (assets/js/toc.js:31). A text that slugs to the empty string (punctuation
  only, say) gives the empty slug, and `UniqueId` then returns the empty id
  at once, because no element is found under the empty id. Such a heading
  keeps no id, its link is `#`, and several headings can share that empty
  id (`PunctuationHeadingGetsEmptyId`, `AssignedIdsAreUnique`).
- A full stop is deleted, not turned into a hyphen (assets/js/toc.js:7).
  Heading text `3.1 Edge Cases!` gives `31-edge-cases`, not
  `3-1-edge-cases` (`SlugifyDeletesFullStop` states this for any two words
  around a full stop).

## Model

| member | source | states |
|---|---|---|
| Decimal.Show | assets/js/toc.js:35 | the rendering of the counter is a non-empty string of decimal digits with no leading zero |
| Decimal.ValueShow | assets/js/toc.js:35 | reading the rendering of `i` back gives `i` |
| Decimal.ShowInjective | assets/js/toc.js:35 | distinct counters are rendered as distinct strings |
| Slug.TrimStart | assets/js/toc.js:5 | `trim` drops exactly the leading whitespace: the result is a suffix, every dropped character is whitespace, the first kept one is not |
| Slug.TrimEnd | assets/js/toc.js:5 | `trim` drops exactly the trailing whitespace: the result is a prefix, every dropped character is whitespace, the last kept one is not |
| Slug.Trim | assets/js/toc.js:5 | `trim` leaves no whitespace at either end, and gives the empty string exactly when the text is all whitespace |
| Slug.ToLower | assets/js/toc.js:6 | `toLowerCase` (ASCII) keeps the length, turns each capital into its own lowercase letter, and keeps every character that was not a capital where it was |
| Slug.KeepAllowed | assets/js/toc.js:7 | after the first `replace`, only characters of `[a-z0-9\s-]` remain |
| Slug.HyphenateSpaces | assets/js/toc.js:8 | after the second `replace`, no whitespace remains; every other character comes from the input; the result is empty only for an empty input |
| Slug.TrimStartSpaceRun | assets/js/toc.js:8 | a maximal whitespace run at the front is consumed whole, and nothing after it |
| Slug.HyphenateKeepsSpaceless | assets/js/toc.js:8 | text without whitespace is kept as it is by the second `replace`, whatever follows it |
| Slug.HyphenateLeadingRun | assets/js/toc.js:8 | a maximal whitespace run at the front becomes exactly one `-` |
| Slug.HyphenateSpaceRun | assets/js/toc.js:8 | in `a` + run + `b`, with `a` free of whitespace and the run maximal, `a` is kept in order and the run becomes exactly one `-` |
| Slug.SkipHyphens | assets/js/toc.js:9 | a hyphen run is consumed whole: what remains is a suffix that does not start with `-` |
| Slug.CollapseHyphens | assets/js/toc.js:9 | after the third `replace`, no two hyphens are adjacent; the characters come from the input, the first one is kept, emptiness is preserved |
| Slug.Slugify | assets/js/toc.js:2-10 | every result of `slugify` is a slug: lowercase ASCII letters, digits and hyphens, never `--` |
| Slug.KeepAllowedKeepsKept | assets/js/toc.js:7 | the first `replace` leaves a string of allowed characters unchanged |
| Slug.HyphenateSpacelessIsIdentity | assets/js/toc.js:8 | the second `replace` leaves a string without whitespace unchanged |
| Slug.CollapseSingleHyphensIsIdentity | assets/js/toc.js:9 | the third `replace` leaves a string without `--` unchanged |
| Slug.TrimKeepsUnpadded | assets/js/toc.js:5 | `trim` leaves a string that neither starts nor ends with whitespace unchanged |
| Slug.ToLowerKeepsLower | assets/js/toc.js:6 | `toLowerCase` leaves a string without capitals unchanged |
| Slug.ToLowerSlices | assets/js/toc.js:6 | `toLowerCase` works character by character: it commutes with taking a prefix or a suffix |
| Slug.SlugIsFixpoint | assets/js/toc.js:2-10 | a slug is its own slug |
| Slug.SlugifyIdempotent | assets/js/toc.js:2-10 | slugifying twice gives what slugifying once gives |
| Slug.AlnumsTrim | assets/js/toc.js:5-6 | trimming loses no letter or digit |
| Slug.SlugifyKeepsAlnums | assets/js/toc.js:2-10 | the letters and digits of the slug are exactly those of the lowercased text, in order |
| Slug.SlugifyEmpty | assets/js/toc.js:5-9 | the slug is empty if and only if the trimmed, lowercased text holds no character of `[a-z0-9\s-]` |
| Slug.CollapseHyphenateIsCollapseDash | assets/js/toc.js:8-9 | turning whitespace runs into `-` and then collapsing hyphen runs equals turning each whitespace character into `-` and then collapsing |
| Slug.SlugifyPerCharacter | assets/js/toc.js:2-10 | `slugify` equals the per-character definition: trim, lowercase, filter, one hyphen per whitespace character, collapse |
| Slug.KeepAllowedAppend | assets/js/toc.js:7 | the first `replace` works character by character: it distributes over concatenation |
| Slug.KeepAllowedDropsFullStop | assets/js/toc.js:7 | the first `replace` deletes a full stop between two words |
| Slug.SlugifyDeletesFullStop | assets/js/toc.js:2-10 | for two lowercase words, the slug of `a.b` is `ab` |
| Toc.Found | assets/js/toc.js:34 | `document.getElementById(id)` finds an element exactly when the id is non-empty and carried by an element of the document |
| Toc.Candidate | assets/js/toc.js:33-35 | the k-th id tried starts with the slug, and only the first try is the bare slug; later tries append `-k` |
| Toc.CandidateInjective | assets/js/toc.js:33-36 | the probing loop never tries the same id twice |
| Toc.TriedGrows | assets/js/toc.js:33-36 | each probe adds an id not tried before |
| Toc.ProbeFrom | assets/js/toc.js:33-36 | the loop stops at a counter whose id is not found, and every earlier candidate was found |
| Toc.UniqueId | assets/js/toc.js:31-37 | the id chosen is not found in the document and starts with the slug; it is empty for an empty slug, otherwise non-empty and absent from the document's ids |
| Toc.UniqueIdIsFirstFree | assets/js/toc.js:33-36 | the id chosen is the first free one in the order `base`, `base-2`, `base-3`, ... |
| Toc.ResolveId | assets/js/toc.js:33-36 | the `while` loop returns the first free candidate |
| Toc.IdSource | assets/js/toc.js:31 | the text slugified is never empty: a non-empty `textContent` is used as it is, and only an empty one falls back to `section` |
| Toc.NewId | assets/js/toc.js:31-36 | the id an id-less heading receives is not found in the document and starts with the slug of its text |
| Toc.NewIdIsFresh | assets/js/toc.js:31-37 | an id-less heading receives the empty id if and only if its slug is empty, and otherwise an id the document does not hold |
| Toc.PunctuationHeadingGetsEmptyId | assets/js/toc.js:31 | a heading whose text is `!` receives the empty id: the `section` fallback does not apply to it |
| Toc.Record | assets/js/toc.js:37 | writing `h.id` makes the element findable under its id exactly when the id is non-empty; the document gains that id and no other, and never the empty id |
| Toc.AssignIdsBy | assets/js/toc.js:29-38 | the pass yields one heading per heading visited |
| Toc.AssignIds | assets/js/toc.js:29-38 | the id pass of `buildToc` (the rule `NewId`) yields one heading per heading visited |
| Toc.AssignIdsLast | assets/js/toc.js:29-38 | visiting a heading leaves one that has an id unchanged; otherwise it writes the new id onto the heading and adds that id to the document |
| Toc.AssignIdsKeepsHeadings | assets/js/toc.js:30-38 | the pass changes only empty ids: tags and texts are kept, and so is every existing id |
| Toc.AssignIdsRecordsIds | assets/js/toc.js:34-37 | the document loses no id; every non-empty id given out is then found in the document; every id the document gains is a heading's id, never the empty one |
| Toc.AssignedIdFollowsRule | assets/js/toc.js:30-37 | a heading's new id depends on the ids present at its turn, which include those given to the headings before it |
| Toc.AssignedIdIsFirstFree | assets/js/toc.js:30-37 | heading `k` receives the first free candidate for its slug among the ids present at its turn |
| Toc.AssignedIdsAreUniqueBy | assets/js/toc.js:30-37 | for any rule that gives out fresh ids, a non-empty id given out is new to the document and carried by no other heading |
| Toc.AssignedIdsAreUnique | assets/js/toc.js:30-37 | in `buildToc`, a non-empty id given out is new to the document and carried by no other heading |
| Toc.AssignIdsSnoc | assets/js/toc.js:29-38 | the pass over one more heading extends the pass over those before it by that heading's step |
| Toc.AssignIdsKeepsIdsKnown | assets/js/toc.js:30-38 | after the pass, every id a heading carries is an id of the document |
| Toc.LinkOf | assets/js/toc.js:42-43 | the anchor of a heading: its text, and an `href` of `#` followed by the heading's id |
| Toc.LinkOfTargetsId | assets/js/toc.js:42 | two anchors lead to the same place exactly when their headings carry the same id |
| Toc.NoH2Snoc | assets/js/toc.js:57 | `currentH2List` is still unset after one more heading if and only if it was unset and that heading is an `h3` |
| Toc.H3Run | assets/js/toc.js:54-64 | the leading run of `h3`s ends at the first `h2` or at the end |
| Toc.Tree | assets/js/toc.js:45-64 | the navigation the headings call for; it is empty exactly when there is no heading |
| Toc.Group | assets/js/toc.js:45-64 | the list built from an `h2` onwards is non-empty and ends with an `h2` item |
| Toc.GroupFlatten | assets/js/toc.js:40-64 | reading the list built from an `h2` onwards in order gives its links, then the links of the later headings, in document order |
| Toc.TreeFlatten | assets/js/toc.js:40-65 | reading the navigation in order gives one link per heading, in document order: none lost, none repeated, none moved |
| Toc.TreeOrphan | assets/js/toc.js:57-60 | each `h3` before the first `h2` is a top-level item of its own, in order |
| Toc.GroupFirst | assets/js/toc.js:45-64 | an `h2` item's sublist holds the links of the `h3`s that follow it up to the next `h2` |
| Toc.GroupSection | assets/js/toc.js:45-64 | every later `h2` becomes an item whose sublist holds the `h3`s that follow it up to the next `h2` |
| Toc.TreeSection | assets/js/toc.js:45-64 | every `h2` of the page is an item of the navigation whose sublist holds exactly the `h3`s that follow it up to the next `h2` |
| Toc.AppendToLastCons | assets/js/toc.js:61-64 | adding to the last item's sublist leaves the earlier items unchanged |
| Toc.GroupSnocH2 | assets/js/toc.js:45-53 | a later `h2` appends a new item with an empty sublist |
| Toc.GroupSnocH3 | assets/js/toc.js:61-64 | a later `h3` joins the sublist of the last item |
| Toc.TreeEndsWithSection | assets/js/toc.js:45-64 | once an `h2` has been seen, the last top-level item is an `h2` item |
| Toc.TreeSnocH2 | assets/js/toc.js:45-53 | an `h2` appends a new top-level item with an empty sublist |
| Toc.TreeSnocOrphan | assets/js/toc.js:57-60 | an `h3` before any `h2` appends a top-level item |
| Toc.TreeSnocNested | assets/js/toc.js:61-64 | an `h3` after an `h2` joins the sublist of the last `h2` item |
| Toc.Place | assets/js/toc.js:40-65 | placing one heading keeps the list equal to the navigation of the headings seen so far, with `currentH2List` pointing at the last `h2` item |
| Toc.IdsAtStep | assets/js/toc.js:30-38 | one step of the loop advances the page by exactly one step of the id pass |
| Toc.Page.constructor | assets/js/toc.js:13 | a page whose headings' ids are among its ids |
| Toc.Page.AssignId | assets/js/toc.js:30-38 | a heading with an id is left alone; otherwise it receives the first free id for its slug, which joins the document's ids when non-empty; every heading's id stays an id of the document |
| Toc.Page.BuildToc | assets/js/toc.js:12-70 | `null` and no change when there is no heading; otherwise the headings and ids become those of the id pass, the result is the navigation of the updated headings, and every heading's id stays an id of the document |

## Left out

- `init` (assets/js/toc.js:72-98) is not modelled: it finds the container and moves it into layout wrappers, which is DOM work only.
- The `readyState` bootstrap (assets/js/toc.js:100-104) is not modelled: it only schedules `init`.
- The creation of the `nav`, `div`, `ul`, `li` and `a` elements is left out, with their class names and the title "On this page". The model returns the tree the navigation would display, as links (text and `href`).
- `querySelectorAll('h2, h3')` is replaced by a given sequence of headings in document order. Nesting of headings inside other elements is not modelled.
- `document.getElementById` is reduced to a set of ids of the document. Which element an id belongs to is not modelled, and neither are two elements that already share an id.
- `toString()` is left out: `textContent` is already a string.
- `Slug.LowerChar`: `toLowerCase` is modelled on ASCII capitals only. Other letters are kept as they are; the filter that follows deletes every non-ASCII letter anyway, except where full Unicode lowercasing would turn one into an ASCII letter (such as U+212A KELVIN SIGN to `k`), which the model does not capture.
- `Toc.ResolveId`: the counter `i` is unbounded. JavaScript numbers lose integer precision past 2^53, which no page reaches.
- `Toc.Page.BuildToc`: the link text is the heading's `textContent` as a whole string. Markup inside a heading is not modelled.
