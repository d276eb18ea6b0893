/**
 * The dataset builder: joins link-annotated text sections with a page map
 * and an allow-set of entities, keeping only the links whose target entity
 * is allowed, and emits one (text, span -> entity) entry per section that
 * keeps at least one link.
 *
 * The reading of the three inputs is not modelled: the builder receives the
 * two columns of the filtered-items table, the page map and the annotation
 * records (all chunks, in stream order) as values.
 */
module DatasetGenerator {

  /** Identifier of a source page (the index column of the page map). */
  type PageId = int

  /** Identifier of a knowledge-base entity (a qid). */
  type ItemId = string

  /** One section of an annotated page: its text and the parallel link arrays. */
  datatype Section = Section(
    text: string,
    targetPageIds: seq<PageId>,
    linkOffsets: seq<int>,
    linkLengths: seq<int>)

  /** One line of the annotation corpus: the page it was taken from and its sections. */
  datatype Record = Record(pageId: PageId, sections: seq<WellFormedSection>)

  /** The (start, end) character offsets of a link inside its section's text. */
  datatype Span = Span(start: int, end: int)

  /**
   * One output entry: the section text and its "links" dictionary. Each span
   * is mapped to the entity it links to; the one-key label dictionary
   * {entity: 1.0} of the output always has weight 1.0, so only the entity is kept.
   */
  datatype Entry = Entry(text: string, links: map<Span, ItemId>)

  // ---------------------------------------------------------------------------
  // Well-formed input

  /**
   * The input format gives the three link arrays of a section equal length.
   * The model asks for link_offsets and link_lengths at least as long as
   * target_page_ids in every section of every record. The link loop itself
   * reads them only at the indices of links it keeps, so this is stronger
   * than what the loop needs.
   */
  predicate SectionWellFormed(s: Section)
  {
    |s.targetPageIds| <= |s.linkOffsets| && |s.targetPageIds| <= |s.linkLengths|
  }

  /** The sections the builder accepts. */
  type WellFormedSection = s: Section | SectionWellFormed(s) witness Section([], [], [], [])

  // ---------------------------------------------------------------------------
  // The allow-set

  /** The allow-set: every value of the qid column together with every value of the Work_of_art column. */
  method AllowSet(qids: seq<ItemId>, worksOfArt: seq<ItemId>) returns (allow: set<ItemId>)
    ensures forall q :: q in allow <==> q in qids || q in worksOfArt
  {
    allow := set q | q in qids;
    allow := allow + set w | w in worksOfArt;
  }

  // ---------------------------------------------------------------------------
  // Specification of one section's links

  /** A page resolves through the page map to an entity of the allow-set. */
  predicate Admits(pageMap: map<PageId, ItemId>, allow: set<ItemId>, p: PageId)
  {
    p in pageMap && pageMap[p] in allow
  }

  /** The span key of the link at index i. */
  function SpanOf(s: WellFormedSection, i: nat): (sp: Span)
    requires i < |s.targetPageIds|
  {
    Span(s.linkOffsets[i], s.linkOffsets[i] + s.linkLengths[i])
  }

  /** The links dictionary after the first n link indices of s have been visited. */
  function LinksUpTo(s: WellFormedSection, n: nat, pageMap: map<PageId, ItemId>, allow: set<ItemId>): (links: map<Span, ItemId>)
    requires n <= |s.targetPageIds|
  {
    if n == 0 then map[]
    else
      var links := LinksUpTo(s, n - 1, pageMap, allow);
      var p := s.targetPageIds[n - 1];
      if Admits(pageMap, allow, p) then links[SpanOf(s, n - 1) := pageMap[p]] else links
  }

  /** The links dictionary of a whole section. */
  function SectionLinks(s: WellFormedSection, pageMap: map<PageId, ItemId>, allow: set<ItemId>): (links: map<Span, ItemId>)
  {
    LinksUpTo(s, |s.targetPageIds|, pageMap, allow)
  }

  /**
   * Index i is a surviving link among the first n, and no later surviving
   * link among the first n has the same span.
   */
  ghost predicate LastWriter(s: WellFormedSection, n: nat, i: nat, pageMap: map<PageId, ItemId>, allow: set<ItemId>)
    requires n <= |s.targetPageIds|
  {
    && i < n
    && Admits(pageMap, allow, s.targetPageIds[i])
    && forall j :: i < j < n && Admits(pageMap, allow, s.targetPageIds[j]) ==> SpanOf(s, j) != SpanOf(s, i)
  }

  /** The keys of the links dictionary are exactly the spans of the surviving links. */
  lemma {:induction false} LinksUpToKeys(s: WellFormedSection, n: nat, pageMap: map<PageId, ItemId>, allow: set<ItemId>)
    requires n <= |s.targetPageIds|
    ensures forall sp :: sp in LinksUpTo(s, n, pageMap, allow) <==>
      exists i: nat :: i < n && Admits(pageMap, allow, s.targetPageIds[i]) && SpanOf(s, i) == sp
  {
    if n > 0 {
      LinksUpToKeys(s, n - 1, pageMap, allow);
      var prev := LinksUpTo(s, n - 1, pageMap, allow);
      var links := LinksUpTo(s, n, pageMap, allow);
      forall sp | sp in links
        ensures exists i: nat :: i < n && Admits(pageMap, allow, s.targetPageIds[i]) && SpanOf(s, i) == sp
      {
        if sp !in prev {
          assert SpanOf(s, n - 1) == sp;
        }
      }
      forall sp | exists i: nat :: i < n && Admits(pageMap, allow, s.targetPageIds[i]) && SpanOf(s, i) == sp
        ensures sp in links
      {
        var i: nat :| i < n && Admits(pageMap, allow, s.targetPageIds[i]) && SpanOf(s, i) == sp;
        if i < n - 1 {
          assert sp in prev;
        }
      }
    }
  }

  /** Each span holds the entity of the last surviving link with that span (last write wins). */
  lemma {:induction false} LinksUpToLastWins(s: WellFormedSection, n: nat, pageMap: map<PageId, ItemId>, allow: set<ItemId>, i: nat)
    requires n <= |s.targetPageIds|
    requires LastWriter(s, n, i, pageMap, allow)
    ensures SpanOf(s, i) in LinksUpTo(s, n, pageMap, allow)
    ensures LinksUpTo(s, n, pageMap, allow)[SpanOf(s, i)] == pageMap[s.targetPageIds[i]]
  {
    if i < n - 1 {
      assert LastWriter(s, n - 1, i, pageMap, allow);
      LinksUpToLastWins(s, n - 1, pageMap, allow, i);
    }
  }

  /** Every span of the links dictionary has a last surviving link that wrote it. */
  lemma {:induction false} LinksUpToWriter(s: WellFormedSection, n: nat, pageMap: map<PageId, ItemId>, allow: set<ItemId>, sp: Span)
    requires n <= |s.targetPageIds|
    requires sp in LinksUpTo(s, n, pageMap, allow)
    ensures exists i: nat :: LastWriter(s, n, i, pageMap, allow) && SpanOf(s, i) == sp
  {
    if n == 0 {
      assert false;
    }
    var last := n - 1;
    if Admits(pageMap, allow, s.targetPageIds[last]) && sp == SpanOf(s, last) {
      assert LastWriter(s, n, last, pageMap, allow);
    } else {
      LinksUpToWriter(s, n - 1, pageMap, allow, sp);
      var i: nat :| LastWriter(s, n - 1, i, pageMap, allow) && SpanOf(s, i) == sp;
      assert LastWriter(s, n, i, pageMap, allow);
    }
  }

  /**
   * Every key of a section's links dictionary is (offset, offset + length)
   * of some link index, and every value is an allowed entity that is the
   * page-map image of that link's target page.
   */
  lemma SectionLinksResolved(s: WellFormedSection, pageMap: map<PageId, ItemId>, allow: set<ItemId>)
    ensures forall sp :: sp in SectionLinks(s, pageMap, allow) ==>
      && SectionLinks(s, pageMap, allow)[sp] in allow
      && exists i: nat :: (i < |s.targetPageIds| && s.targetPageIds[i] in pageMap
          && sp == Span(s.linkOffsets[i], s.linkOffsets[i] + s.linkLengths[i])
          && SectionLinks(s, pageMap, allow)[sp] == pageMap[s.targetPageIds[i]])
  {
    var n := |s.targetPageIds|;
    forall sp | sp in SectionLinks(s, pageMap, allow)
      ensures SectionLinks(s, pageMap, allow)[sp] in allow
      ensures exists i: nat :: (i < n && s.targetPageIds[i] in pageMap
          && sp == Span(s.linkOffsets[i], s.linkOffsets[i] + s.linkLengths[i])
          && SectionLinks(s, pageMap, allow)[sp] == pageMap[s.targetPageIds[i]])
    {
      LinksUpToWriter(s, n, pageMap, allow, sp);
      var i: nat :| LastWriter(s, n, i, pageMap, allow) && SpanOf(s, i) == sp;
      LinksUpToLastWins(s, n, pageMap, allow, i);
    }
  }

  // ---------------------------------------------------------------------------
  // Concatenation in order: what the nested append loops compute

  /** f(xs[0]) + f(xs[1]) + ... + f(xs[n - 1]). */
  function ConcatUpTo<T, U>(xs: seq<T>, n: nat, f: T -> seq<U>): (out: seq<U>)
    requires n <= |xs|
  {
    if n == 0 then [] else ConcatUpTo(xs, n - 1, f) + f(xs[n - 1])
  }

  function ConcatMap<T, U>(xs: seq<T>, f: T -> seq<U>): (out: seq<U>)
  {
    ConcatUpTo(xs, |xs|, f)
  }

  /** The first n contributions depend only on the first n elements. */
  lemma {:induction false} ConcatUpToSamePrefix<T, U>(xs: seq<T>, ys: seq<T>, n: nat, f: T -> seq<U>)
    requires n <= |xs| && n <= |ys|
    requires forall i :: 0 <= i < n ==> xs[i] == ys[i]
    ensures ConcatUpTo(xs, n, f) == ConcatUpTo(ys, n, f)
  {
    if n > 0 {
      ConcatUpToSamePrefix(xs, ys, n - 1, f);
    }
  }

  lemma {:induction false} ConcatUpToAppend<T, U>(xs: seq<T>, ys: seq<T>, n: nat, f: T -> seq<U>)
    requires n <= |ys|
    ensures ConcatUpTo(xs + ys, |xs| + n, f) == ConcatMap(xs, f) + ConcatUpTo(ys, n, f)
  {
    if n == 0 {
      ConcatUpToSamePrefix(xs + ys, xs, |xs|, f);
    } else {
      ConcatUpToAppend(xs, ys, n - 1, f);
      assert (xs + ys)[|xs| + n - 1] == ys[n - 1];
    }
  }

  /** Concatenating over xs + ys gives the contributions of xs, then those of ys. */
  lemma ConcatMapAppend<T, U>(xs: seq<T>, ys: seq<T>, f: T -> seq<U>)
    ensures ConcatMap(xs + ys, f) == ConcatMap(xs, f) + ConcatMap(ys, f)
  {
    ConcatUpToAppend(xs, ys, |ys|, f);
  }

  /** A value occurs in the first n contributions exactly when it occurs in one of them. */
  lemma {:induction false} ConcatUpToMembership<T, U>(xs: seq<T>, n: nat, f: T -> seq<U>, u: U)
    requires n <= |xs|
    ensures u in ConcatUpTo(xs, n, f) <==> exists i :: 0 <= i < n && u in f(xs[i])
  {
    if n > 0 {
      ConcatUpToMembership(xs, n - 1, f, u);
    }
  }

  lemma ConcatMapMembership<T, U>(xs: seq<T>, f: T -> seq<U>, u: U)
    ensures u in ConcatMap(xs, f) <==> exists i :: 0 <= i < |xs| && u in f(xs[i])
  {
    ConcatUpToMembership(xs, |xs|, f, u);
  }

  // ---------------------------------------------------------------------------
  // Specification of the whole dataset
  //
  // Each per-element contribution is given once as a function (SectionEntry,
  // RecordEntries, RecordNotFound) and once more as a function *value* for
  // ConcatMap (the ...Of wrappers). Naming the lambdas keeps them one and the
  // same term in the specification, the loop invariants and the lemmas, so
  // the verifier matches them instead of unfolding the chain of definitions
  // below them, which keeps the proofs cheap.

  /** The entry a section contributes: none when no link survives. */
  function SectionEntry(s: WellFormedSection, pageMap: map<PageId, ItemId>, allow: set<ItemId>): (entries: seq<Entry>)
  {
    var links := SectionLinks(s, pageMap, allow);
    if |links| == 0 then [] else [Entry(s.text, links)]
  }

  function SectionEntryOf(pageMap: map<PageId, ItemId>, allow: set<ItemId>): WellFormedSection -> seq<Entry>
  {
    (s: WellFormedSection) => SectionEntry(s, pageMap, allow)
  }

  /** The entries of a record: those of its sections, none unless its own page resolves to an allowed entity. */
  function RecordEntries(r: Record, pageMap: map<PageId, ItemId>, allow: set<ItemId>): (entries: seq<Entry>)
  {
    if Admits(pageMap, allow, r.pageId) then ConcatMap(r.sections, SectionEntryOf(pageMap, allow)) else []
  }

  function RecordEntriesOf(pageMap: map<PageId, ItemId>, allow: set<ItemId>): Record -> seq<Entry>
  {
    (r: Record) => RecordEntries(r, pageMap, allow)
  }

  /** The dataset: the records' entries in record order, each record's in section order. */
  function BuildSpec(records: seq<Record>, pageMap: map<PageId, ItemId>, allow: set<ItemId>): (dataset: seq<Entry>)
  {
    ConcatMap(records, RecordEntriesOf(pageMap, allow))
  }

  // ---------------------------------------------------------------------------
  // Specification of the "not found" diagnostics

  /** A page the page map does not know is reported once, a known one not at all. */
  function MissingOf(pageMap: map<PageId, ItemId>): PageId -> seq<PageId>
  {
    (p: PageId) => if p in pageMap then [] else [p]
  }

  /** The link targets of a section that the page map does not know, in link order. */
  function SectionMissingOf(pageMap: map<PageId, ItemId>): WellFormedSection -> seq<PageId>
  {
    (s: WellFormedSection) => ConcatMap(s.targetPageIds, MissingOf(pageMap))
  }

  /**
   * The diagnostics of a record: its own page when that is unknown, nothing
   * when its entity is not allowed, and otherwise its unknown link targets.
   */
  function RecordNotFound(r: Record, pageMap: map<PageId, ItemId>, allow: set<ItemId>): (reported: seq<PageId>)
  {
    if r.pageId !in pageMap then [r.pageId]
    else if pageMap[r.pageId] !in allow then []
    else ConcatMap(r.sections, SectionMissingOf(pageMap))
  }

  function RecordNotFoundOf(pageMap: map<PageId, ItemId>, allow: set<ItemId>): Record -> seq<PageId>
  {
    (r: Record) => RecordNotFound(r, pageMap, allow)
  }

  /** The diagnostics of the whole run, in the order they are reported. */
  function NotFoundSpec(records: seq<Record>, pageMap: map<PageId, ItemId>, allow: set<ItemId>): (notFound: seq<PageId>)
  {
    ConcatMap(records, RecordNotFoundOf(pageMap, allow))
  }

  /** A link target is reported exactly when it occurs in the section and the page map does not know it. */
  lemma SectionMissingCharacterised(s: WellFormedSection, pageMap: map<PageId, ItemId>)
    ensures forall p :: p in SectionMissingOf(pageMap)(s) <==> p in s.targetPageIds && p !in pageMap
  {
    forall p ensures p in SectionMissingOf(pageMap)(s) <==> p in s.targetPageIds && p !in pageMap {
      ConcatMapMembership(s.targetPageIds, MissingOf(pageMap), p);
      if p in s.targetPageIds && p !in pageMap {
        var i :| 0 <= i < |s.targetPageIds| && s.targetPageIds[i] == p;
        assert p in MissingOf(pageMap)(s.targetPageIds[i]);
      }
    }
  }

  // ---------------------------------------------------------------------------
  // The builder

  /**
   * The link loop of one section: visit the link indices in order, report
   * the target pages the page map does not know, and key every link whose
   * target resolves to an allowed entity by its span, a later link
   * overwriting an earlier one with the same span.
   */
  method CollectLinks(section: WellFormedSection, pageMap: map<PageId, ItemId>, allow: set<ItemId>)
    returns (links: map<Span, ItemId>, missing: seq<PageId>)
    ensures links == SectionLinks(section, pageMap, allow)
    ensures missing == SectionMissingOf(pageMap)(section)
  {
    links, missing := map[], [];
    for k := 0 to |section.targetPageIds|
      invariant links == LinksUpTo(section, k, pageMap, allow)
      invariant missing == ConcatUpTo(section.targetPageIds, k, MissingOf(pageMap))
    {
      var linkPageId := section.targetPageIds[k];
      if linkPageId !in pageMap {
        missing := missing + [linkPageId];
        continue;
      }
      var linkItemId := pageMap[linkPageId];
      if linkItemId in allow {
        links := links[Span(section.linkOffsets[k], section.linkOffsets[k] + section.linkLengths[k]) := linkItemId];
      }
    }
  }

  /** One more section: its diagnostics, and its entry when its links dictionary is non-empty. */
  lemma SectionsStep(sections: seq<WellFormedSection>, j: nat, pageMap: map<PageId, ItemId>, allow: set<ItemId>, links: map<Span, ItemId>)
    requires j < |sections|
    requires links == SectionLinks(sections[j], pageMap, allow)
    ensures ConcatUpTo(sections, j + 1, SectionMissingOf(pageMap)) ==
      ConcatUpTo(sections, j, SectionMissingOf(pageMap)) + SectionMissingOf(pageMap)(sections[j])
    ensures ConcatUpTo(sections, j + 1, SectionEntryOf(pageMap, allow)) ==
      ConcatUpTo(sections, j, SectionEntryOf(pageMap, allow)) + (if |links| == 0 then [] else [Entry(sections[j].text, links)])
  {
  }

  /**
   * The section loop of one admitted record: collect each section's links,
   * report its unknown link targets, and keep the section when at least one
   * link survives.
   */
  method CollectEntries(sections: seq<WellFormedSection>, pageMap: map<PageId, ItemId>, allow: set<ItemId>)
    returns (entries: seq<Entry>, missing: seq<PageId>)
    ensures entries == ConcatMap(sections, SectionEntryOf(pageMap, allow))
    ensures missing == ConcatMap(sections, SectionMissingOf(pageMap))
  {
    entries, missing := [], [];
    for j := 0 to |sections|
      invariant entries == ConcatUpTo(sections, j, SectionEntryOf(pageMap, allow))
      invariant missing == ConcatUpTo(sections, j, SectionMissingOf(pageMap))
    {
      var section := sections[j];
      var links, missingTargets := CollectLinks(section, pageMap, allow);
      SectionsStep(sections, j, pageMap, allow, links);
      missing := missing + missingTargets;
      if |links| > 0 {
        entries := entries + [Entry(section.text, links)];
      }
    }
  }

  /**
   * The filter-and-join loop: for every record whose page resolves to an
   * allowed entity, and every section of it, collect the allowed links by
   * span and append the section when at least one link survives. The page
   * ids that the page map does not know are reported in `notFound`.
   */
  method Build(records: seq<Record>, pageMap: map<PageId, ItemId>, allow: set<ItemId>)
    returns (dataset: seq<Entry>, notFound: seq<PageId>)
    ensures dataset == BuildSpec(records, pageMap, allow)
    ensures notFound == NotFoundSpec(records, pageMap, allow)
  {
    dataset, notFound := [], [];
    for i := 0 to |records|
      invariant dataset == ConcatUpTo(records, i, RecordEntriesOf(pageMap, allow))
      invariant notFound == ConcatUpTo(records, i, RecordNotFoundOf(pageMap, allow))
    {
      var record := records[i];
      if record.pageId !in pageMap {
        notFound := notFound + [record.pageId];
        continue;
      }
      var recordItemId := pageMap[record.pageId];
      if recordItemId !in allow {
        continue;
      }
      var entries, missing := CollectEntries(record.sections, pageMap, allow);
      dataset := dataset + entries;
      notFound := notFound + missing;
    }
  }

  /**
   * The whole run without its I/O: build the allow-set from the two columns
   * of the filtered-items table, then run the filter-and-join loop.
   */
  method GenerateDataset(qids: seq<ItemId>, worksOfArt: seq<ItemId>, pageMap: map<PageId, ItemId>, records: seq<Record>)
    returns (dataset: seq<Entry>, notFound: seq<PageId>)
    ensures dataset == BuildSpec(records, pageMap, set q | q in qids + worksOfArt)
    ensures notFound == NotFoundSpec(records, pageMap, set q | q in qids + worksOfArt)
    ensures forall e :: e in dataset ==> |e.links| > 0
    ensures forall e, sp :: e in dataset && sp in e.links ==> e.links[sp] in qids || e.links[sp] in worksOfArt
  {
    var allow := AllowSet(qids, worksOfArt);
    assert allow == set q | q in qids + worksOfArt;
    dataset, notFound := Build(records, pageMap, allow);
    EntriesLabelled(records, pageMap, allow);
  }

  // ---------------------------------------------------------------------------
  // Order: the dataset is the concatenation of the records' contributions

  /**
   * Building over a concatenation of record streams concatenates the
   * datasets and the diagnostics: the output is in record order.
   */
  lemma BuildSpecAppend(a: seq<Record>, b: seq<Record>, pageMap: map<PageId, ItemId>, allow: set<ItemId>)
    ensures BuildSpec(a + b, pageMap, allow) == BuildSpec(a, pageMap, allow) + BuildSpec(b, pageMap, allow)
    ensures NotFoundSpec(a + b, pageMap, allow) == NotFoundSpec(a, pageMap, allow) + NotFoundSpec(b, pageMap, allow)
  {
    ConcatMapAppend(a, b, RecordEntriesOf(pageMap, allow));
    ConcatMapAppend(a, b, RecordNotFoundOf(pageMap, allow));
  }

  /**
   * A record whose page is unknown, or whose entity is not allowed,
   * contributes no entry; an unknown page contributes exactly one
   * diagnostic, its own page id, and a disallowed entity none.
   */
  lemma SkippedRecordContributesNothing(a: seq<Record>, r: Record, b: seq<Record>, pageMap: map<PageId, ItemId>, allow: set<ItemId>)
    requires !Admits(pageMap, allow, r.pageId)
    ensures BuildSpec(a + [r] + b, pageMap, allow) == BuildSpec(a + b, pageMap, allow)
    ensures NotFoundSpec(a + [r] + b, pageMap, allow) ==
      NotFoundSpec(a, pageMap, allow) + (if r.pageId in pageMap then [] else [r.pageId]) + NotFoundSpec(b, pageMap, allow)
  {
    assert BuildSpec([r], pageMap, allow) == [] by {
      assert ConcatMap([r], RecordEntriesOf(pageMap, allow)) == ConcatUpTo([r], 0, RecordEntriesOf(pageMap, allow)) + RecordEntries(r, pageMap, allow);
    }
    assert NotFoundSpec([r], pageMap, allow) == (if r.pageId in pageMap then [] else [r.pageId]) by {
      assert ConcatMap([r], RecordNotFoundOf(pageMap, allow)) == ConcatUpTo([r], 0, RecordNotFoundOf(pageMap, allow)) + RecordNotFound(r, pageMap, allow);
    }
    BuildSpecAppend(a, [r], pageMap, allow);
    BuildSpecAppend(a + [r], b, pageMap, allow);
    BuildSpecAppend(a, b, pageMap, allow);
  }

  /** The dataset of a prefix of the records is a prefix of the dataset: the builder only appends. */
  lemma BuildSpecPrefix(records: seq<Record>, n: nat, pageMap: map<PageId, ItemId>, allow: set<ItemId>)
    requires n <= |records|
    ensures BuildSpec(records[..n], pageMap, allow) <= BuildSpec(records, pageMap, allow)
    ensures NotFoundSpec(records[..n], pageMap, allow) <= NotFoundSpec(records, pageMap, allow)
  {
    assert records == records[..n] + records[n..];
    BuildSpecAppend(records[..n], records[n..], pageMap, allow);
  }

  // ---------------------------------------------------------------------------
  // Which entries the dataset holds

  /** Section j of record i yields the entry e. */
  ghost predicate EmitsAt(records: seq<Record>, pageMap: map<PageId, ItemId>, allow: set<ItemId>, i: int, j: int, e: Entry)
  {
    && 0 <= i < |records|
    && 0 <= j < |records[i].sections|
    && Admits(pageMap, allow, records[i].pageId)
    && |SectionLinks(records[i].sections[j], pageMap, allow)| > 0
    && e == Entry(records[i].sections[j].text, SectionLinks(records[i].sections[j], pageMap, allow))
  }

  /**
   * An entry is in the dataset exactly when it is the text and links of some
   * section, with at least one surviving link, of some record whose page
   * resolves to an allowed entity.
   */
  lemma BuildSpecMembership(records: seq<Record>, pageMap: map<PageId, ItemId>, allow: set<ItemId>, e: Entry)
    ensures e in BuildSpec(records, pageMap, allow) <==> exists i, j :: EmitsAt(records, pageMap, allow, i, j, e)
  {
    ConcatMapMembership(records, RecordEntriesOf(pageMap, allow), e);
    if e in BuildSpec(records, pageMap, allow) {
      var i :| 0 <= i < |records| && e in RecordEntriesOf(pageMap, allow)(records[i]);
      ConcatMapMembership(records[i].sections, SectionEntryOf(pageMap, allow), e);
      var j :| 0 <= j < |records[i].sections| && e in SectionEntryOf(pageMap, allow)(records[i].sections[j]);
      assert EmitsAt(records, pageMap, allow, i, j, e);
    }
    if exists i, j :: EmitsAt(records, pageMap, allow, i, j, e) {
      var i, j :| EmitsAt(records, pageMap, allow, i, j, e);
      ConcatMapMembership(records[i].sections, SectionEntryOf(pageMap, allow), e);
      assert e in SectionEntryOf(pageMap, allow)(records[i].sections[j]);
      assert e in RecordEntriesOf(pageMap, allow)(records[i]);
    }
  }

  /** Record i reports page p: its own page is p, or it is admitted and one of its sections links to p. */
  ghost predicate ReportsAt(records: seq<Record>, pageMap: map<PageId, ItemId>, allow: set<ItemId>, i: int, p: PageId)
  {
    && 0 <= i < |records|
    && (|| records[i].pageId == p
        || (Admits(pageMap, allow, records[i].pageId)
            && exists j :: 0 <= j < |records[i].sections| && p in records[i].sections[j].targetPageIds))
  }

  /**
   * A page id is reported exactly when the page map does not know it and it
   * is the page of some record, or a link target in some section of a record
   * whose page resolves to an allowed entity.
   */
  lemma NotFoundSpecMembership(records: seq<Record>, pageMap: map<PageId, ItemId>, allow: set<ItemId>, p: PageId)
    ensures p in NotFoundSpec(records, pageMap, allow) <==>
      p !in pageMap && exists i :: ReportsAt(records, pageMap, allow, i, p)
  {
    ConcatMapMembership(records, RecordNotFoundOf(pageMap, allow), p);
    if p in NotFoundSpec(records, pageMap, allow) {
      var i :| 0 <= i < |records| && p in RecordNotFoundOf(pageMap, allow)(records[i]);
      var r := records[i];
      if r.pageId in pageMap {
        ConcatMapMembership(r.sections, SectionMissingOf(pageMap), p);
        var j :| 0 <= j < |r.sections| && p in SectionMissingOf(pageMap)(r.sections[j]);
        SectionMissingCharacterised(r.sections[j], pageMap);
        assert ReportsAt(records, pageMap, allow, i, p);
      } else {
        assert ReportsAt(records, pageMap, allow, i, p);
      }
    }
    if p !in pageMap && exists i :: ReportsAt(records, pageMap, allow, i, p) {
      var i :| ReportsAt(records, pageMap, allow, i, p);
      var r := records[i];
      if r.pageId != p {
        var j :| 0 <= j < |r.sections| && p in r.sections[j].targetPageIds;
        SectionMissingCharacterised(r.sections[j], pageMap);
        ConcatMapMembership(r.sections, SectionMissingOf(pageMap), p);
      }
      assert p in RecordNotFoundOf(pageMap, allow)(r);
    }
  }

  /**
   * Every entry of the dataset has a non-empty links dictionary, and every
   * entity in it is in the allow-set.
   */
  lemma EntriesLabelled(records: seq<Record>, pageMap: map<PageId, ItemId>, allow: set<ItemId>)
    ensures forall e :: e in BuildSpec(records, pageMap, allow) ==> |e.links| > 0
    ensures forall e, sp :: e in BuildSpec(records, pageMap, allow) && sp in e.links ==> e.links[sp] in allow
  {
    forall e | e in BuildSpec(records, pageMap, allow)
      ensures |e.links| > 0
      ensures forall sp :: sp in e.links ==> e.links[sp] in allow
    {
      BuildSpecMembership(records, pageMap, allow, e);
      var i, j :| EmitsAt(records, pageMap, allow, i, j, e);
      SectionLinksResolved(records[i].sections[j], pageMap, allow);
    }
  }

  // ---------------------------------------------------------------------------
  // Worked examples

  /** An empty annotation corpus gives an empty dataset and no diagnostics. */
  lemma EmptyCorpus(pageMap: map<PageId, ItemId>, allow: set<ItemId>)
    ensures BuildSpec([], pageMap, allow) == [] && NotFoundSpec([], pageMap, allow) == []
  {
  }

  /**
   * Allow-set {Q1, Q2}, page map {1 -> Q1, 2 -> Q2, 3 -> Q3}, one record of
   * page 1 with the section "See A and B" linking page 2 at (4, 1) and page 3
   * at (10, 1): only the link to Q2 survives.
   */
  lemma DisallowedTargetDropped()
    ensures BuildSpec([Record(1, [Section("See A and B", [2, 3], [4, 10], [1, 1])])],
                      map[1 := "Q1", 2 := "Q2", 3 := "Q3"], {"Q1", "Q2"})
      == [Entry("See A and B", map[Span(4, 5) := "Q2"])]
  {
    var s := Section("See A and B", [2, 3], [4, 10], [1, 1]);
    assert SectionLinks(s, map[1 := "Q1", 2 := "Q2", 3 := "Q3"], {"Q1", "Q2"}) == map[Span(4, 5) := "Q2"];
  }

  /** Two allowed links of one section with the same span: the later one is kept. */
  lemma DuplicateSpanLastWins()
    ensures SectionLinks(Section("A", [2, 3], [0, 0], [1, 1]), map[2 := "Q2", 3 := "Q3"], {"Q2", "Q3"})
      == map[Span(0, 1) := "Q3"]
  {
  }

  /** A record whose own page is unknown yields no entry and one diagnostic. */
  lemma UnknownRecordPageReported()
    ensures BuildSpec([Record(7, [Section("A", [2], [0], [1])])], map[2 := "Q2"], {"Q2"}) == []
    ensures NotFoundSpec([Record(7, [Section("A", [2], [0], [1])])], map[2 := "Q2"], {"Q2"}) == [7]
  {
  }
}
