/** `buildToc` (assets/js/toc.js) without the DOM element creation: the ids
    given to the headings that have none, and the two-level tree of links the
    navigation shows. The document is reduced to the set of ids its elements
    carry and the h2/h3 headings of the content container, in document order. */
module Toc {
  import Slug
  import Decimal

  datatype Option<T> = None | Some(value: T)

  /** The tag of a heading: `querySelectorAll('h2, h3')` returns no other. */
  datatype Level = H2 | H3

  /** A heading element: its tag, its `textContent` and its `id`, which is
      the empty string when the element has none. */
  datatype Heading = Heading(level: Level, text: string, id: string)

  /** An anchor of the navigation: its text and its `href`. */
  datatype Link = Link(text: string, href: string)

  /** An item of the top-level list: an h2 with the sublist it owns, or an h3
      that no h2 precedes. */
  datatype Entry = Section(link: Link, sub: seq<Link>) | Leaf(link: Link)

  // ---------------------------------------------------------------------
  // Making an id unique: `base`, `base-2`, `base-3`, ...

  /** `document.getElementById(id)` finds an element. No element is found
      under the empty id. */
  predicate Found(ids: set<string>, id: string) {
    id != "" && id in ids
  }

  /** The k-th id the probing loop tries. */
  function Candidate(base: string, k: nat): (id: string)
    requires k >= 1
    ensures base <= id
    ensures id == base <==> k == 1
  {
    if k == 1 then base else base + "-" + Decimal.Show(k)
  }

  /** Different rounds of the loop try different ids. */
  lemma CandidateInjective(base: string, j: nat, k: nat)
    requires 1 <= j && 1 <= k && Candidate(base, j) == Candidate(base, k)
    ensures j == k
  {
    if j != 1 && k != 1 {
      var n := |base| + 1;
      assert Candidate(base, j)[n..] == Decimal.Show(j);
      assert Candidate(base, k)[n..] == Decimal.Show(k);
      Decimal.ShowInjective(j, k);
    }
  }

  /** The ids tried before round `k`. */
  function Tried(base: string, k: nat): set<string>
    requires k >= 1
  {
    set j | 1 <= j < k :: Candidate(base, j)
  }

  lemma TriedGrows(base: string, k: nat)
    requires k >= 1
    ensures Candidate(base, k) !in Tried(base, k)
    ensures Tried(base, k + 1) == Tried(base, k) + {Candidate(base, k)}
  {
    if Candidate(base, k) in Tried(base, k) {
      var j :| 1 <= j < k && Candidate(base, j) == Candidate(base, k);
      CandidateInjective(base, j, k);
    }
  }

  /** The round at which the probing loop stops, when every id tried before
      round `k` was found. It terminates because every round that goes on
      removes one id of the finite set from those not yet tried. */
  function ProbeFrom(ids: set<string>, base: string, k: nat): (n: nat)
    requires k >= 1
    requires forall j :: 1 <= j < k ==> Found(ids, Candidate(base, j))
    ensures n >= k && !Found(ids, Candidate(base, n))
    ensures forall j :: 1 <= j < n ==> Found(ids, Candidate(base, j))
    decreases ids - Tried(base, k)
  {
    if !Found(ids, Candidate(base, k)) then k
    else
      TriedGrows(base, k);
      ProbeFrom(ids, base, k + 1)
  }

  /** The id the loop settles on: the first candidate that is not found. */
  function UniqueId(ids: set<string>, base: string): (id: string)
    ensures !Found(ids, id)
    ensures base == "" ==> id == ""
    ensures base != "" ==> id != "" && id !in ids
    ensures base <= id
  {
    Candidate(base, ProbeFrom(ids, base, 1))
  }

  /** `UniqueId` is the first candidate that is not found, and nothing else. */
  lemma UniqueIdIsFirstFree(ids: set<string>, base: string, n: nat)
    requires n >= 1 && !Found(ids, Candidate(base, n))
    requires forall j :: 1 <= j < n ==> Found(ids, Candidate(base, j))
    ensures UniqueId(ids, base) == Candidate(base, n)
  {
  }

  /** The `while (document.getElementById(id))` loop of `buildToc`. */
  method ResolveId(ids: set<string>, base: string) returns (id: string)
    ensures id == UniqueId(ids, base)
  {
    id := base;
    var i := 2;
    while Found(ids, id)
      invariant i >= 2 && id == Candidate(base, i - 1)
      invariant forall j :: 1 <= j < i - 1 ==> Found(ids, Candidate(base, j))
      decreases ids - Tried(base, i - 1)
    {
      TriedGrows(base, i - 1);
      id := base + "-" + Decimal.Show(i);
      i := i + 1;
    }
    UniqueIdIsFirstFree(ids, base, i - 1);
  }

  // ---------------------------------------------------------------------
  // The id-assignment pass.

  /** `h.textContent || 'section'`: only an empty text falls back. */
  function IdSource(h: Heading): (text: string)
    ensures text != ""
    ensures h.text != "" ==> text == h.text
  {
    if h.text == "" then "section" else h.text
  }

  /** The id an id-less heading receives while the document holds `ids`. */
  function NewId(ids: set<string>, h: Heading): (id: string)
    ensures !Found(ids, id)
    ensures Slug.Slugify(IdSource(h)) <= id
  {
    UniqueId(ids, Slug.Slugify(IdSource(h)))
  }

  /** Only the empty id can be one the document already holds. */
  lemma NewIdIsFresh(ids: set<string>, h: Heading)
    ensures NewId(ids, h) == "" <==> Slug.Slugify(IdSource(h)) == ""
    ensures NewId(ids, h) == "" || NewId(ids, h) !in ids
  {
  }

  /** Only an empty text falls back to "section": a heading whose text is
      punctuation only slugs to the empty string and receives the empty id,
      so that it keeps no id and its link is `#`. */
  lemma PunctuationHeadingGetsEmptyId(ids: set<string>, l: Level)
    ensures NewId(ids, Heading(l, "!", "")) == ""
  {
    var t := "!";
    assert IdSource(Heading(l, t, "")) == t;
    calc {
      Slug.Slugify(t);
    == { assert !Slug.IsSpace(t[0]); Slug.TrimKeepsUnpadded(t); }
      Slug.CollapseHyphens(Slug.HyphenateSpaces(Slug.KeepAllowed(Slug.ToLower(t))));
    == { Slug.ToLowerKeepsLower(t); }
      Slug.CollapseHyphens(Slug.HyphenateSpaces(Slug.KeepAllowed(t)));
    == { assert !Slug.IsKept(t[0]) && t[1..] == []; }
      Slug.CollapseHyphens(Slug.HyphenateSpaces([]));
    }
  }

  /** A rule for the id an id-less heading receives, given the ids the
      document holds at its turn. The pass is defined for any rule, so that
      its bookkeeping is proved apart from the slug; `NewId` is the rule of
      `buildToc`. */
  type IdRule = (set<string>, Heading) -> string

  /** A rule that never gives out an id the document holds, the empty id
      aside. */
  ghost predicate GivesFreshIds(rule: IdRule) {
    forall ids: set<string>, h: Heading :: rule(ids, h) == "" || rule(ids, h) !in ids
  }

  /** The document's ids and the headings after an id pass. */
  datatype Pass = Pass(ids: set<string>, headings: seq<Heading>)

  /** The ids of the document once `h.id = id` has run: the element becomes
      findable under its id, unless that id is empty. */
  function Record(ids: set<string>, id: string): (ids': set<string>)
    ensures ids <= ids' && (forall x :: x in ids' && x !in ids ==> x == id)
    ensures id != "" <==> Found(ids', id)
    ensures "" in ids' ==> "" in ids
  {
    if id == "" then ids else ids + {id}
  }

  /** The ids and headings after the headings `hs` have been visited in
      order, starting from the ids `ids`: each id-less heading receives the
      id `rule` gives for the ids present at its turn, and that id joins them. */
  function AssignIdsBy(rule: IdRule, ids: set<string>, hs: seq<Heading>): (p: Pass)
    ensures |p.headings| == |hs|
    decreases |hs|
  {
    if hs == [] then Pass(ids, [])
    else
      var prev := AssignIdsBy(rule, ids, hs[..|hs| - 1]);
      var h := hs[|hs| - 1];
      if h.id != "" then Pass(prev.ids, prev.headings + [h])
      else
        var id := rule(prev.ids, h);
        Pass(Record(prev.ids, id), prev.headings + [h.(id := id)])
  }

  /** The id pass of `buildToc`. */
  function AssignIds(ids: set<string>, hs: seq<Heading>): (p: Pass)
    ensures |p.headings| == |hs|
  {
    AssignIdsBy(NewId, ids, hs)
  }

  /** The last heading visited adds one heading to those before it. */
  lemma AssignIdsLast(rule: IdRule, ids: set<string>, hs: seq<Heading>)
    requires hs != []
    ensures var n := |hs| - 1;
            var prev := AssignIdsBy(rule, ids, hs[..n]);
            var p := AssignIdsBy(rule, ids, hs);
            p.headings == prev.headings + [p.headings[n]] &&
            (hs[n].id != "" ==> p.headings[n] == hs[n] && p.ids == prev.ids) &&
            (hs[n].id == "" ==> p.headings[n] == hs[n].(id := rule(prev.ids, hs[n])) &&
                                p.ids == Record(prev.ids, p.headings[n].id))
  {
  }

  /** The pass changes ids only, and only empty ones: every heading keeps
      its tag and text, and a heading that has an id keeps it. */
  lemma {:induction false} AssignIdsKeepsHeadings(rule: IdRule, ids: set<string>, hs: seq<Heading>)
    ensures var p := AssignIdsBy(rule, ids, hs);
            forall k :: 0 <= k < |hs| ==>
              p.headings[k] == hs[k].(id := p.headings[k].id) &&
              (hs[k].id != "" ==> p.headings[k] == hs[k])
    decreases |hs|
  {
    if hs != [] {
      var n := |hs| - 1;
      AssignIdsKeepsHeadings(rule, ids, hs[..n]);
      AssignIdsLast(rule, ids, hs);
      var p := AssignIdsBy(rule, ids, hs);
      var prev := AssignIdsBy(rule, ids, hs[..n]);
      assert forall k :: 0 <= k < n ==> hs[..n][k] == hs[k] && p.headings[k] == prev.headings[k];
    }
  }

  /** The document loses no id; every non-empty id the pass gives out is
      found in the document afterwards; and every id the document gains is
      the id of a heading (never the empty id). */
  lemma {:induction false} AssignIdsRecordsIds(rule: IdRule, ids: set<string>, hs: seq<Heading>)
    ensures ids <= AssignIdsBy(rule, ids, hs).ids
    ensures var p := AssignIdsBy(rule, ids, hs);
            forall k :: 0 <= k < |hs| && hs[k].id == "" && p.headings[k].id != "" ==> Found(p.ids, p.headings[k].id)
    ensures var p := AssignIdsBy(rule, ids, hs);
            p.ids - ids <= HeadingIds(p.headings)
    decreases |hs|
  {
    if hs != [] {
      var n := |hs| - 1;
      AssignIdsRecordsIds(rule, ids, hs[..n]);
      AssignIdsLast(rule, ids, hs);
      var p := AssignIdsBy(rule, ids, hs);
      var prev := AssignIdsBy(rule, ids, hs[..n]);
      assert prev.ids <= p.ids;
      assert forall k :: 0 <= k < n ==> hs[..n][k] == hs[k] && p.headings[k] == prev.headings[k];
      forall x | x in p.ids && x !in ids
        ensures x in HeadingIds(p.headings)
      {
        if x in prev.ids {
          assert x in HeadingIds(prev.headings);
          var k :| 0 <= k < |prev.headings| && prev.headings[k].id != "" && prev.headings[k].id == x;
          assert p.headings[k] == prev.headings[k];
        } else {
          assert x == p.headings[n].id;
        }
      }
    }
  }

  /** The id heading `k` receives is the one the rule gives for the ids
      present when its turn comes, those given to the headings before it
      included. */
  lemma {:induction false} AssignedIdFollowsRule(rule: IdRule, ids: set<string>, hs: seq<Heading>, k: nat)
    requires k < |hs| && hs[k].id == ""
    ensures AssignIdsBy(rule, ids, hs).headings[k].id == rule(AssignIdsBy(rule, ids, hs[..k]).ids, hs[k])
    decreases |hs|
  {
    var n := |hs| - 1;
    var prev := AssignIdsBy(rule, ids, hs[..n]);
    AssignIdsLast(rule, ids, hs);
    if k < n {
      assert hs[..n][..k] == hs[..k] && hs[..n][k] == hs[k];
      AssignedIdFollowsRule(rule, ids, hs[..n], k);
      assert AssignIdsBy(rule, ids, hs).headings[k] == prev.headings[k];
    } else {
      assert hs[..k] == hs[..n];
    }
  }

  /** In `buildToc`, the id heading `k` receives is the first free candidate
      for its slug among the ids present when its turn comes. */
  lemma AssignedIdIsFirstFree(ids: set<string>, hs: seq<Heading>, k: nat)
    requires k < |hs| && hs[k].id == ""
    ensures AssignIds(ids, hs).headings[k].id
            == UniqueId(AssignIds(ids, hs[..k]).ids, Slug.Slugify(IdSource(hs[k])))
  {
    AssignedIdFollowsRule(NewId, ids, hs, k);
  }

  /** When every id a heading already carries is among `ids` and the rule
      gives out fresh ids, an id the pass gives out is new to the document
      and differs from every other heading's id, the empty id aside. */
  lemma {:induction false} AssignedIdsAreUniqueBy(rule: IdRule, ids: set<string>, hs: seq<Heading>)
    requires GivesFreshIds(rule)
    requires forall k :: 0 <= k < |hs| && hs[k].id != "" ==> hs[k].id in ids
    ensures var r := AssignIdsBy(rule, ids, hs).headings;
            forall k :: 0 <= k < |hs| && hs[k].id == "" && r[k].id != "" ==> r[k].id !in ids
    ensures var r := AssignIdsBy(rule, ids, hs).headings;
            forall j, k :: 0 <= j < |hs| && 0 <= k < |hs| && j != k && hs[k].id == "" && r[k].id != ""
              ==> r[j].id != r[k].id
    decreases |hs|
  {
    if hs != [] {
      var n := |hs| - 1;
      var prev := AssignIdsBy(rule, ids, hs[..n]);
      AssignedIdsAreUniqueBy(rule, ids, hs[..n]);
      AssignIdsKeepsHeadings(rule, ids, hs[..n]);
      AssignIdsRecordsIds(rule, ids, hs[..n]);
      AssignIdsLast(rule, ids, hs);
      var r := AssignIdsBy(rule, ids, hs).headings;
      assert forall k :: 0 <= k < n ==> r[k] == prev.headings[k];
      forall k | 0 <= k < n
        ensures r[k].id == "" || r[k].id in prev.ids
      {
        if hs[..n][k].id != "" {
          assert r[k].id == hs[k].id;
        }
      }
    }
  }

  /** In `buildToc`, an id given out is new to the document and differs from
      every other heading's id, unless the slug is empty: then the heading
      receives the empty id, as any number of others may. */
  lemma AssignedIdsAreUnique(ids: set<string>, hs: seq<Heading>)
    requires forall k :: 0 <= k < |hs| && hs[k].id != "" ==> hs[k].id in ids
    ensures var r := AssignIds(ids, hs).headings;
            forall k :: 0 <= k < |hs| && hs[k].id == "" && r[k].id != "" ==> r[k].id !in ids
    ensures var r := AssignIds(ids, hs).headings;
            forall j, k :: 0 <= j < |hs| && 0 <= k < |hs| && j != k && hs[k].id == "" && r[k].id != ""
              ==> r[j].id != r[k].id
  {
    forall ids': set<string>, h: Heading
      ensures NewId(ids', h) == "" || NewId(ids', h) !in ids'
    {
      NewIdIsFresh(ids', h);
    }
    AssignedIdsAreUniqueBy(NewId, ids, hs);
  }

  /** One more heading visited: `AssignIdsLast` for the rule `NewId`,
      written for a pass extended by the heading `h`. */
  lemma AssignIdsSnoc(ids: set<string>, hs: seq<Heading>, h: Heading)
    ensures var prev := AssignIds(ids, hs);
            var id := NewId(prev.ids, h);
            AssignIds(ids, hs + [h])
              == if h.id != "" then Pass(prev.ids, prev.headings + [h])
                 else Pass(Record(prev.ids, id), prev.headings + [h.(id := id)])
  {
    assert (hs + [h])[..|hs|] == hs && (hs + [h])[|hs|] == h;
    AssignIdsLast(NewId, ids, hs + [h]);
  }

  /** The pass keeps every id a heading carries among the document's ids. */
  lemma AssignIdsKeepsIdsKnown(ids: set<string>, hs: seq<Heading>)
    requires forall k :: 0 <= k < |hs| && hs[k].id != "" ==> hs[k].id in ids
    ensures var p := AssignIds(ids, hs);
            forall k :: 0 <= k < |hs| && p.headings[k].id != "" ==> p.headings[k].id in p.ids
  {
    AssignIdsKeepsHeadings(NewId, ids, hs);
    AssignIdsRecordsIds(NewId, ids, hs);
  }

  // ---------------------------------------------------------------------
  // The tree.

  /** `a.href = '#' + h.id; a.textContent = h.textContent` */
  function LinkOf(h: Heading): Link {
    Link(h.text, "#" + h.id)
  }

  /** Two links lead to the same place exactly when their headings carry
      the same id. */
  lemma LinkOfTargetsId(a: Heading, b: Heading)
    ensures LinkOf(a).href == LinkOf(b).href <==> a.id == b.id
  {
    assert LinkOf(a).href[1..] == a.id && LinkOf(b).href[1..] == b.id;
  }

  function Links(hs: seq<Heading>): seq<Link> {
    seq(|hs|, k requires 0 <= k < |hs| => LinkOf(hs[k]))
  }

  predicate NoH2(hs: seq<Heading>) {
    forall k :: 0 <= k < |hs| ==> hs[k].level == H3
  }

  lemma NoH2Snoc(hs: seq<Heading>, h: Heading)
    ensures NoH2(hs + [h]) <==> NoH2(hs) && h.level == H3
  {
    assert forall k :: 0 <= k < |hs| ==> (hs + [h])[k] == hs[k];
    assert (hs + [h])[|hs|] == h;
  }

  /** The number of h3 headings `hs` starts with. */
  function H3Run(hs: seq<Heading>): (n: nat)
    ensures n <= |hs| && NoH2(hs[..n])
    ensures n < |hs| ==> hs[n].level == H2
  {
    if hs == [] || hs[0].level == H2 then 0 else 1 + H3Run(hs[1..])
  }

  /** The navigation the headings `hs` call for, read front to back: the h3
      headings before the first h2 are top-level items; from the first h2 on,
      the headings form groups. */
  function Tree(hs: seq<Heading>): (t: seq<Entry>)
    ensures t == [] <==> hs == []
    decreases |hs|
  {
    if hs == [] then []
    else if hs[0].level == H3 then [Leaf(LinkOf(hs[0]))] + Tree(hs[1..])
    else Group(LinkOf(hs[0]), [], hs[1..])
  }

  /** The items from an open section on: the section of the h2 link `l`,
      whose sublist so far is `sub`, takes every h3 of `hs` up to the next
      h2, which opens the next section. */
  function Group(l: Link, sub: seq<Link>, hs: seq<Heading>): (t: seq<Entry>)
    ensures t != [] && t[|t| - 1].Section?
    decreases |hs|
  {
    if hs == [] then [Section(l, sub)]
    else if hs[0].level == H3 then Group(l, sub + [LinkOf(hs[0])], hs[1..])
    else [Section(l, sub)] + Group(LinkOf(hs[0]), [], hs[1..])
  }

  /** The links of a tree, each top-level item followed by its sublist. */
  function Flatten(t: seq<Entry>): seq<Link> {
    if t == [] then []
    else
      match t[0]
      case Leaf(l) => [l] + Flatten(t[1..])
      case Section(l, sub) => [l] + sub + Flatten(t[1..])
  }

  lemma FlattenCons(e: Entry, t: seq<Entry>)
    ensures Flatten([e] + t) == Flatten([e]) + Flatten(t)
  {
    assert ([e] + t)[1..] == t;
    assert [e][1..] == [];
  }

  lemma LinksCons(hs: seq<Heading>)
    requires hs != []
    ensures Links(hs) == [LinkOf(hs[0])] + Links(hs[1..])
  {
  }

  lemma {:induction false} GroupFlatten(l: Link, sub: seq<Link>, hs: seq<Heading>)
    ensures Flatten(Group(l, sub, hs)) == [l] + sub + Links(hs)
    decreases |hs|
  {
    if hs == [] {
      FlattenCons(Section(l, sub), []);
      assert Links(hs) == [];
    } else {
      LinksCons(hs);
      if hs[0].level == H3 {
        GroupFlatten(l, sub + [LinkOf(hs[0])], hs[1..]);
      } else {
        GroupFlatten(LinkOf(hs[0]), [], hs[1..]);
        FlattenCons(Section(l, sub), Group(LinkOf(hs[0]), [], hs[1..]));
        FlattenCons(Section(l, sub), []);
      }
    }
  }

  /** Every heading yields exactly one link, to `'#' + id` with its text, and
      reading the tree top-level item by item, each followed by its sublist,
      gives the headings in document order. */
  lemma {:induction false} TreeFlatten(hs: seq<Heading>)
    ensures Flatten(Tree(hs)) == Links(hs)
    decreases |hs|
  {
    if hs != [] {
      LinksCons(hs);
      if hs[0].level == H3 {
        TreeFlatten(hs[1..]);
        FlattenCons(Leaf(LinkOf(hs[0])), Tree(hs[1..]));
        FlattenCons(Leaf(LinkOf(hs[0])), []);
      } else {
        GroupFlatten(LinkOf(hs[0]), [], hs[1..]);
      }
    }
  }

  /** An h3 that no h2 precedes is a top-level item of its own. */
  lemma {:induction false} TreeOrphan(hs: seq<Heading>, i: nat)
    requires i < H3Run(hs)
    ensures i < |Tree(hs)| && Tree(hs)[i] == Leaf(LinkOf(hs[i]))
    decreases |hs|
  {
    if i > 0 {
      TreeOrphan(hs[1..], i - 1);
    }
  }

  /** The open section takes the run of h3 headings that follows. */
  lemma {:induction false} GroupFirst(l: Link, sub: seq<Link>, hs: seq<Heading>)
    ensures Group(l, sub, hs)[0] == Section(l, sub + Links(hs[..H3Run(hs)]))
    decreases |hs|
  {
    if hs == [] || hs[0].level == H2 {
      assert hs[..0] == [];
      assert Links([]) == [];
    } else {
      var tail := hs[1..];
      GroupFirst(l, sub + [LinkOf(hs[0])], tail);
      assert hs[..H3Run(hs)] == [hs[0]] + tail[..H3Run(tail)];
      LinksCons(hs[..H3Run(hs)]);
      assert hs[..H3Run(hs)][1..] == tail[..H3Run(tail)];
    }
  }

  /** Within the groups, every h2 owns the run of h3 headings after it. */
  lemma {:induction false} GroupSection(l: Link, sub: seq<Link>, hs: seq<Heading>, i: nat)
      returns (k: nat)
    requires i < |hs| && hs[i].level == H2
    ensures k < |Group(l, sub, hs)|
    ensures var after := hs[i + 1..];
            Group(l, sub, hs)[k] == Section(LinkOf(hs[i]), Links(after[..H3Run(after)]))
    decreases |hs|
  {
    var tail := hs[1..];
    if i == 0 {
      GroupFirst(LinkOf(hs[0]), [], tail);
      k := 1;
    } else {
      assert tail[i - 1] == hs[i] && tail[i - 1 + 1..] == hs[i + 1..];
      if hs[0].level == H3 {
        k := GroupSection(l, sub + [LinkOf(hs[0])], tail, i - 1);
      } else {
        var k' := GroupSection(LinkOf(hs[0]), [], tail, i - 1);
        k := k' + 1;
      }
    }
  }

  /** Every h2 is a top-level item owning a sublist, and that sublist holds
      the h3 headings that follow it up to the next h2: each h3 sits under the
      nearest h2 before it. */
  lemma {:induction false} TreeSection(hs: seq<Heading>, i: nat) returns (k: nat)
    requires i < |hs| && hs[i].level == H2
    ensures k < |Tree(hs)|
    ensures var after := hs[i + 1..];
            Tree(hs)[k] == Section(LinkOf(hs[i]), Links(after[..H3Run(after)]))
    decreases |hs|
  {
    var tail := hs[1..];
    if i == 0 {
      GroupFirst(LinkOf(hs[0]), [], tail);
      k := 0;
    } else {
      assert tail[i - 1] == hs[i] && tail[i - 1 + 1..] == hs[i + 1..];
      if hs[0].level == H3 {
        var k' := TreeSection(tail, i - 1);
        k := k' + 1;
      } else {
        k := GroupSection(LinkOf(hs[0]), [], tail, i - 1);
      }
    }
  }

  // How the tree grows when one more heading is visited: the
  // `currentH2List` state machine of `buildToc`.

  /** The sublist of the last top-level item, one link longer. */
  function AppendToLast(t: seq<Entry>, l: Link): seq<Entry>
    requires t != [] && t[|t| - 1].Section?
  {
    var e := t[|t| - 1];
    t[|t| - 1 := e.(sub := e.sub + [l])]
  }

  lemma AppendToLastCons(x: Entry, t: seq<Entry>, l: Link)
    requires t != [] && t[|t| - 1].Section?
    ensures AppendToLast([x] + t, l) == [x] + AppendToLast(t, l)
  {
  }

  lemma {:induction false} GroupSnocH2(l: Link, sub: seq<Link>, hs: seq<Heading>, h: Heading)
    requires h.level == H2
    ensures Group(l, sub, hs + [h]) == Group(l, sub, hs) + [Section(LinkOf(h), [])]
    decreases |hs|
  {
    if hs == [] {
      assert [h][1..] == [];
    } else {
      assert (hs + [h])[1..] == hs[1..] + [h];
      if hs[0].level == H3 {
        GroupSnocH2(l, sub + [LinkOf(hs[0])], hs[1..], h);
      } else {
        GroupSnocH2(LinkOf(hs[0]), [], hs[1..], h);
      }
    }
  }

  lemma {:induction false} GroupSnocH3(l: Link, sub: seq<Link>, hs: seq<Heading>, h: Heading)
    requires h.level == H3
    ensures Group(l, sub, hs + [h]) == AppendToLast(Group(l, sub, hs), LinkOf(h))
    decreases |hs|
  {
    if hs == [] {
      assert [h][1..] == [];
    } else {
      assert (hs + [h])[1..] == hs[1..] + [h];
      if hs[0].level == H3 {
        GroupSnocH3(l, sub + [LinkOf(hs[0])], hs[1..], h);
      } else {
        GroupSnocH3(LinkOf(hs[0]), [], hs[1..], h);
        AppendToLastCons(Section(l, sub), Group(LinkOf(hs[0]), [], hs[1..]), LinkOf(h));
      }
    }
  }

  /** Once an h2 has been seen, the last top-level item is a section. */
  lemma {:induction false} TreeEndsWithSection(hs: seq<Heading>)
    requires !NoH2(hs)
    ensures Tree(hs) != [] && Tree(hs)[|Tree(hs)| - 1].Section?
    decreases |hs|
  {
    if hs[0].level == H3 {
      assert forall k :: 1 <= k < |hs| ==> hs[k] == hs[1..][k - 1];
      TreeEndsWithSection(hs[1..]);
    }
  }

  /** An h2 opens a new top-level item with an empty sublist. */
  lemma {:induction false} TreeSnocH2(hs: seq<Heading>, h: Heading)
    requires h.level == H2
    ensures Tree(hs + [h]) == Tree(hs) + [Section(LinkOf(h), [])]
    decreases |hs|
  {
    if hs == [] {
      assert [h][1..] == [];
    } else {
      assert (hs + [h])[1..] == hs[1..] + [h];
      if hs[0].level == H3 {
        TreeSnocH2(hs[1..], h);
      } else {
        GroupSnocH2(LinkOf(hs[0]), [], hs[1..], h);
      }
    }
  }

  /** An h3 that no h2 precedes is appended at the top level. */
  lemma {:induction false} TreeSnocOrphan(hs: seq<Heading>, h: Heading)
    requires h.level == H3 && NoH2(hs)
    ensures Tree(hs + [h]) == Tree(hs) + [Leaf(LinkOf(h))]
    decreases |hs|
  {
    if hs == [] {
      assert [h][1..] == [];
    } else {
      assert hs[0].level == H3;
      assert (hs + [h])[1..] == hs[1..] + [h];
      assert forall k :: 1 <= k < |hs| ==> hs[k] == hs[1..][k - 1];
      TreeSnocOrphan(hs[1..], h);
    }
  }

  /** An h3 after an h2 is appended to the sublist of the last top-level
      item, which is the section of the latest h2. */
  lemma {:induction false} TreeSnocNested(hs: seq<Heading>, h: Heading)
    requires h.level == H3 && !NoH2(hs)
    ensures Tree(hs) != [] && Tree(hs)[|Tree(hs)| - 1].Section?
    ensures Tree(hs + [h]) == AppendToLast(Tree(hs), LinkOf(h))
    decreases |hs|
  {
    TreeEndsWithSection(hs);
    assert (hs + [h])[1..] == hs[1..] + [h];
    if hs[0].level == H3 {
      assert forall k :: 1 <= k < |hs| ==> hs[k] == hs[1..][k - 1];
      TreeSnocNested(hs[1..], h);
      AppendToLastCons(Leaf(LinkOf(hs[0])), Tree(hs[1..]), LinkOf(h));
    } else {
      GroupSnocH3(LinkOf(hs[0]), [], hs[1..], h);
    }
  }

  /** `list` is the tree built from the headings `seen`, and `current`
      locates the item owning the current sublist: none before the first h2,
      the last top-level item (an h2's) after it. */
  ghost predicate Built(seen: seq<Heading>, list: seq<Entry>, current: Option<nat>) {
    list == Tree(seen) &&
    (current.None? <==> NoH2(seen)) &&
    (current.Some? ==> current.value == |list| - 1 && list[current.value].Section?)
  }

  /** The list item of heading `h` (the second half of the `forEach`
      callback): an h2 opens a new top-level item with an empty sublist and
      makes it current, an h3 joins the current sublist, or the top level when
      no h2 has been seen. `current` stands for `currentH2List`, as the
      position of the top-level item that owns it; `seen` are the headings
      visited before `h`. */
  method Place(list: seq<Entry>, current: Option<nat>, h: Heading, ghost seen: seq<Heading>)
      returns (list': seq<Entry>, current': Option<nat>)
    requires Built(seen, list, current)
    ensures Built(seen + [h], list', current')
  {
    var link := LinkOf(h);
    if h.level == H2 {
      TreeSnocH2(seen, h);
      list' := list + [Section(link, [])];
      current' := Some(|list'| - 1);
    } else if current == None {
      TreeSnocOrphan(seen, h);
      list' := list + [Leaf(link)];
      current' := None;
    } else {
      TreeSnocNested(seen, h);
      var e := list[current.value];
      list' := list[current.value := e.(sub := e.sub + [link])];
      current' := current;
    }
    NoH2Snoc(seen, h);
  }

  /** The ids and headings reached after the id pass has visited the first
      `i` of the headings `hs0`, starting from the ids `ids0`. */
  ghost predicate IdsAt(ids0: set<string>, hs0: seq<Heading>, i: nat,
                        ids: set<string>, hs: seq<Heading>)
  {
    i <= |hs0| && |hs| == |hs0| &&
    ids == AssignIds(ids0, hs0[..i]).ids &&
    hs == AssignIds(ids0, hs0[..i]).headings + hs0[i..]
  }

  /** Overwriting the first element after a prefix. */
  lemma UpdateAfter<T>(a: seq<T>, b: seq<T>, x: T)
    requires b != []
    ensures (a + b)[|a| := x] == a + [x] + b[1..]
    ensures (a + b)[|a| := x][..|a| + 1] == a + [x]
    ensures (a + b)[..|a|] == a && (a + b)[|a|] == b[0]
  {
    assert (a + b)[|a| := x] == a + [x] + b[1..];
  }

  /** Visiting heading `i` the way `Page.AssignId` does advances the pass by
      one heading. */
  lemma IdsAtStep(ids0: set<string>, hs0: seq<Heading>, i: nat,
                  ids: set<string>, hs: seq<Heading>, h: Heading)
    requires IdsAt(ids0, hs0, i, ids, hs) && i < |hs0|
    requires h == if hs[i].id != "" then hs[i] else hs[i].(id := NewId(ids, hs[i]))
    ensures IdsAt(ids0, hs0, i + 1, if hs[i].id != "" then ids else Record(ids, h.id), hs[i := h])
    ensures hs[i := h][..i + 1] == hs[..i] + [h]
  {
    var p := AssignIds(ids0, hs0[..i]);
    UpdateAfter(p.headings, hs0[i..], h);
    assert hs0[..i + 1] == hs0[..i] + [hs0[i]];
    assert hs0[i..][1..] == hs0[i + 1..];
    AssignIdsSnoc(ids0, hs0[..i], hs0[i]);
  }

  // ---------------------------------------------------------------------
  // The document and `buildToc`.

  function HeadingIds(hs: seq<Heading>): set<string> {
    set k | 0 <= k < |hs| && hs[k].id != "" :: hs[k].id
  }

  /** The page: the ids of its elements and the h2/h3 headings of its content
      container, in document order. `buildToc` writes the ids it gives out
      back onto the headings, which adds them to the document. */
  class Page {
    var ids: set<string>
    var headings: seq<Heading>

    /** The headings are elements of the document: the ids they carry are
        ids of the document. */
    ghost predicate Valid()
      reads this
    {
      forall k :: 0 <= k < |headings| && headings[k].id != "" ==> headings[k].id in ids
    }

    /** A page whose other elements carry the ids `others`. */
    constructor (others: set<string>, hs: seq<Heading>)
      ensures Valid()
      ensures ids == others + HeadingIds(hs) && headings == hs
    {
      ids := others + HeadingIds(hs);
      headings := hs;
    }

    /** The first half of the `forEach` callback: heading `i`, given an id
        when it has none; the id is written onto the heading, which adds it to
        the document's ids. */
    method AssignId(i: nat) returns (h: Heading)
      requires Valid() && i < |headings|
      modifies this
      ensures Valid()
      ensures var g := old(headings)[i];
              h == if g.id != "" then g else g.(id := NewId(old(ids), g))
      ensures headings == old(headings)[i := h]
      ensures ids == if old(headings)[i].id != "" then old(ids) else Record(old(ids), h.id)
    {
      h := headings[i];
      if h.id == "" {
        var id := ResolveId(ids, Slug.Slugify(IdSource(h)));
        h := h.(id := id);
        headings := headings[i := h];
        ids := Record(ids, id);
      }
    }

    /** `buildToc(container)`: gives every id-less heading its id, in
        document order, and returns the navigation tree, or `None` (the
        script's `null`) when there is no heading. */
    method BuildToc() returns (toc: Option<seq<Entry>>)
      requires Valid()
      modifies this
      ensures Valid()
      ensures ids == AssignIds(old(ids), old(headings)).ids
      ensures headings == AssignIds(old(ids), old(headings)).headings
      ensures old(headings) == [] ==> toc == None && ids == old(ids) && headings == []
      ensures old(headings) != [] ==> toc == Some(Tree(headings))
    {
      if |headings| == 0 {
        return None;
      }
      ghost var ids0, hs0 := ids, headings;
      var list: seq<Entry> := [];
      // `currentH2List`, as the position of the h2 item that owns it
      var current: Option<nat> := None;
      var i := 0;
      assert hs0[..0] == [] && hs0[0..] == hs0;
      while i < |headings|
        invariant Valid()
        invariant IdsAt(ids0, hs0, i, ids, headings)
        invariant Built(headings[..i], list, current)
      {
        ghost var ids1, hs1 := ids, headings;
        var h := AssignId(i);
        IdsAtStep(ids0, hs0, i, ids1, hs1, h);
        list, current := Place(list, current, h, hs1[..i]);
        i := i + 1;
      }
      assert hs0[..i] == hs0 && hs0[i..] == [];
      assert headings == AssignIds(ids0, hs0).headings;
      AssignIdsKeepsIdsKnown(ids0, hs0);
      toc := Some(list);
    }
  }
}
