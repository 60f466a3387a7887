/**
 Orphaning the pages of deleted sources, one source at a time, and the frozen pages
 that no source claims any more.
 */
module Orphan {
  import Strings
  import opened Pending
  import opened Sequences
  import opened WikiState
  import opened Deps

  /** Of a concept page, whether its frontmatter marks it orphaned. */
  datatype Page = Page(orphaned: bool)

  type Pages = map<Slug, Page>

  /** The files of one project that a compile writes: the concept pages, state.json and the pending candidates. */
  class WikiStore {
    var pages: Pages
    var state: WikiState
    var candidates: Candidates

    constructor (pages: Pages, state: WikiState, candidates: Candidates)
      ensures this.pages == pages && this.state == state && this.candidates == candidates
    {
      this.pages, this.state, this.candidates := pages, state, candidates;
    }

    /** Delete every candidate for a concept page. */
    method DeleteCandidateBySlug(slug: Slug)
      modifies this`candidates
      ensures candidates == Without(old(candidates), slug)
    {
      candidates := Keep(candidates, (c: Candidate) => c.target != ConceptPage(slug));
    }

    /** Write a candidate in place of every other one for its concept page; it is the latest. */
    method WriteCandidate(slug: Slug, hashes: map<File, Hash>)
      modifies this`candidates
      ensures candidates == Without(old(candidates), slug) + [Candidate(ConceptPage(slug), hashes)]
    {
      candidates := Keep(candidates, (c: Candidate) => c.target != ConceptPage(slug)) + [Candidate(ConceptPage(slug), hashes)];
    }

    /** Apply page writes as one batch. */
    method ApplyWrites(writes: map<Slug, Page>)
      modifies this`pages
      ensures pages == old(pages) + writes
    {
      pages := pages + writes;
    }

    /** The one durable state write of a compile. */
    method Flush(draft: CompileStateDraft)
      modifies this`state
      ensures state == draft.state
    {
      state := draft.state;
    }
  }

  predicate IsSafeFilenameComponent(s: string) {
    s != "" && s[0] != '.' && forall k :: 0 <= k < |s| ==> s[k] != '/' && s[k] != '\\' && s[k] != ' ' && s[k] != '\0'
  }

  /** Splitting at the character leaves the text in one piece. */
  predicate Unsplit(s: string, c: char) {
    Strings.Split(s, c) == [s]
  }

  lemma {:induction false} UnsplitIff(s: string, c: char)
    ensures Unsplit(s, c) <==> c !in s
  {
    if c !in s {
      Strings.SplitFirst(s, [], c);
    } else {
      Strings.SplitJoin(s, c);
      var first := Strings.Split(s, c)[0];
      assert c !in first && c in s;
    }
  }

  /** A safe name is one component of a path, and no hidden one: no separator, space or null splits it. */
  lemma SafeNameIsOneComponent(s: string)
    ensures IsSafeFilenameComponent(s) <==>
      && Unsplit(s, '/') && Unsplit(s, '\\') && Unsplit(s, ' ') && Unsplit(s, '\0')
      && !("." <= s) && s != ""
  {
    hide Unsplit;
    UnsplitIff(s, '/');
    UnsplitIff(s, '\\');
    UnsplitIff(s, ' ');
    UnsplitIff(s, '\0');
  }

  /** The pages after orphaning every safe slug of a set that has a page. */
  function Orphaned(pages: Pages, slugs: set<Slug>): Pages {
    map s | s in pages :: if s in slugs && IsSafeFilenameComponent(s) then Page(true) else pages[s]
  }

  /** The write that orphans one page, if the page needs one. */
  function OrphanPage(pages: Pages, slug: Slug): map<Slug, Page> {
    if !IsSafeFilenameComponent(slug) then map[]
    else if slug !in pages then map[]
    else if pages[slug].orphaned then map[]
    else map[slug := Page(true)]
  }

  /** The concepts that `file` alone lists, once. */
  ghost function Exclusive(sources: Sources, file: File): set<Slug> {
    set s | s in Recorded(sources, file) && !Shared(sources, file, s)
  }

  lemma OrphanStep(pages: Pages, writes: map<Slug, Page>, slugs: set<Slug>, slug: Slug)
    requires writes.Keys <= pages.Keys && pages + writes == Orphaned(pages, slugs)
    ensures (writes + OrphanPage(pages, slug)).Keys <= pages.Keys
    ensures pages + (writes + OrphanPage(pages, slug)) == Orphaned(pages, slugs + {slug})
  {
    hide IsSafeFilenameComponent;
    var write, before, after := OrphanPage(pages, slug), Orphaned(pages, slugs), Orphaned(pages, slugs + {slug});
    assert pages + (writes + write) == before + write;
    forall s | s in pages
      ensures (before + write)[s] == after[s]
    {
      assert before[s] == pages[s] || before[s] == Page(true);
    }
  }

  lemma OrphanedTwice(pages: Pages, a: set<Slug>, b: set<Slug>)
    ensures Orphaned(Orphaned(pages, a), b) == Orphaned(pages, a + b)
  {}

  lemma OrphanedNothing(pages: Pages)
    ensures Orphaned(pages, {}) == pages
  {}

  method MarkOrphaned(store: WikiStore, sourceFile: File, draft: CompileStateDraft)
    modifies store`pages, draft
    ensures store.pages == Orphaned(old(store.pages), Exclusive(old(draft.state.sources), sourceFile))
    ensures draft.state == old(draft.state).(sources := old(draft.state.sources) - {sourceFile})
  {
    hide Orphaned, OrphanPage, Shared;
    var state := draft.state;
    OrphanedNothing(store.pages);
    if sourceFile !in state.sources {
      assert Exclusive(state.sources, sourceFile) == {};
      return;
    }
    var shared := FindSharedConcepts(sourceFile, state);
    var concepts := state.sources[sourceFile].concepts;
    var writes: map<Slug, Page> := map[];
    assert (set s | s in concepts[..0] && s !in shared) == {};
    for i := 0 to |concepts|
      invariant store.pages == old(store.pages) && draft.state == old(draft.state)
      invariant writes.Keys <= store.pages.Keys
      invariant store.pages + writes == Orphaned(store.pages, set s | s in concepts[..i] && s !in shared)
    {
      ghost var done := set s | s in concepts[..i] && s !in shared;
      assert (set s | s in concepts[..i + 1] && s !in shared) == if concepts[i] in shared then done else done + {concepts[i]};
      if concepts[i] !in shared {
        OrphanStep(store.pages, writes, done, concepts[i]);
        writes := writes + OrphanPage(store.pages, concepts[i]);
      }
    }
    assert concepts[..|concepts|] == concepts;
    assert (set s | s in concepts && s !in shared) == Exclusive(state.sources, sourceFile);
    store.ApplyWrites(writes);
    draft.RemoveSource(sourceFile);
  }

  // ----- A whole deletion pass -----

  /** The slugs orphaned by deleting the sources one by one. */
  ghost function OrphanedBy(sources: Sources, deleted: seq<File>): set<Slug> {
    if deleted == [] then {}
    else Exclusive(sources, deleted[0]) + OrphanedBy(sources - {deleted[0]}, deleted[1..])
  }

  method MarkDeletedAsOrphaned(store: WikiStore, deleted: seq<File>, draft: CompileStateDraft)
    modifies store`pages, draft
    ensures store.pages == Orphaned(old(store.pages), OrphanedBy(old(draft.state.sources), deleted))
    ensures draft.state == old(draft.state).(sources := old(draft.state.sources) - set f | f in deleted)
  {
    ghost var sources, pages := draft.state.sources, store.pages;
    for i := 0 to |deleted|
      invariant draft.state == old(draft.state).(sources := sources - set f | f in deleted[..i])
      invariant Orphaned(store.pages, OrphanedBy(draft.state.sources, deleted[i..]))
        == Orphaned(pages, OrphanedBy(sources, deleted))
    {
      assert deleted[i..][1..] == deleted[i + 1..];
      assert deleted[..i + 1] == deleted[..i] + [deleted[i]];
      ghost var left := draft.state.sources;
      OrphanedTwice(store.pages, Exclusive(left, deleted[i]), OrphanedBy(left - {deleted[i]}, deleted[i + 1..]));
      MarkOrphaned(store, deleted[i], draft);
    }
    assert deleted[..|deleted|] == deleted;
  }

  /** Entry `i` of the deletion order is the last owner of the slug, and lists it once. */
  ghost predicate LastOwner(sources: Sources, deleted: seq<File>, i: int, slug: Slug) {
    && 0 <= i < |deleted|
    && Lists(sources, deleted[i], slug) == 1
    && deleted[i] !in deleted[..i]
    && forall g :: Owns(sources, g, slug) && g != deleted[i] ==> g in deleted[..i]
  }

  /** A slug is orphaned exactly when some deletion removes its last owner, which lists it once. */
  lemma {:induction false} OrphanedExactly(sources: Sources, deleted: seq<File>, slug: Slug)
    ensures slug in OrphanedBy(sources, deleted) <==> exists i :: LastOwner(sources, deleted, i, slug)
  {
    if deleted != [] {
      var rest, sources' := deleted[1..], sources - {deleted[0]};
      OrphanedExactly(sources', rest, slug);
      ListsIffOwns(sources, deleted[0], slug);
      assert slug in Exclusive(sources, deleted[0]) <==> LastOwner(sources, deleted, 0, slug);
      forall i: int
        ensures LastOwner(sources', rest, i, slug) ==> LastOwner(sources, deleted, i + 1, slug)
        ensures i >= 0 && LastOwner(sources, deleted, i + 1, slug) ==> LastOwner(sources', rest, i, slug)
      {
        LastOwnerStep(sources, deleted, i, slug);
      }
      if exists i :: LastOwner(sources, deleted, i, slug) {
        var i :| LastOwner(sources, deleted, i, slug);
        assert i > 0 ==> LastOwner(sources', rest, i - 1, slug);
      }
    }
  }

  lemma LastOwnerStep(sources: Sources, deleted: seq<File>, i: int, slug: Slug)
    requires deleted != []
    ensures var sources', rest := sources - {deleted[0]}, deleted[1..];
      && (LastOwner(sources', rest, i, slug) ==> LastOwner(sources, deleted, i + 1, slug))
      && (i >= 0 && LastOwner(sources, deleted, i + 1, slug) ==> LastOwner(sources', rest, i, slug))
  {
    var sources', rest := sources - {deleted[0]}, deleted[1..];
    if 0 <= i < |rest| {
      assert deleted[..i + 1] == [deleted[0]] + rest[..i];
      assert forall g :: Owns(sources', g, slug) <==> g != deleted[0] && Owns(sources, g, slug);
    }
  }

  /** Every owner lists the slug once. */
  ghost predicate ListedOnce(sources: Sources, slug: Slug) {
    forall f :: Owns(sources, f, slug) ==> Lists(sources, f, slug) == 1
  }

  /** Without duplicate listings, a slug is orphaned exactly when all its owners are deleted. */
  lemma {:induction false} OrphanedIffAllOwnersDeleted(sources: Sources, deleted: seq<File>, slug: Slug)
    requires ListedOnce(sources, slug)
    ensures slug in OrphanedBy(sources, deleted) <==>
      (exists f :: Owns(sources, f, slug)) && forall f :: Owns(sources, f, slug) ==> f in deleted
  {
    if deleted != [] {
      var d, rest := deleted[0], deleted[1..];
      var sources' := sources - {d};
      assert forall g :: Owns(sources', g, slug) <==> g != d && Owns(sources, g, slug);
      OrphanedIffAllOwnersDeleted(sources', rest, slug);
      ListsIffOwns(sources, d, slug);
      assert deleted == [d] + rest;
      if exists g :: g != d && Owns(sources, g, slug) {
        var g :| g != d && Owns(sources, g, slug);
        assert Owns(sources', g, slug);
      }
    }
  }

  ghost predicate OrderingOf(order: seq<File>, deleted: set<File>) {
    forall f :: f in order <==> f in deleted
  }

  /** Without duplicate listings, the order of deletion does not matter. */
  lemma OrphaningIgnoresOrder(sources: Sources, deleted: set<File>, ds: seq<File>, es: seq<File>)
    requires forall s :: ListedOnce(sources, s)
    requires OrderingOf(ds, deleted) && OrderingOf(es, deleted)
    ensures OrphanedBy(sources, ds) == OrphanedBy(sources, es)
    ensures sources - (set f | f in ds) == sources - (set f | f in es) == sources - deleted
  {
    forall s
      ensures s in OrphanedBy(sources, ds) <==> s in OrphanedBy(sources, es)
    {
      OrphanedIffAllOwnersDeleted(sources, ds, s);
      OrphanedIffAllOwnersDeleted(sources, es, s);
    }
    assert (set f | f in ds) == deleted == (set f | f in es);
  }

  lemma {:induction false} SomeOrder(deleted: set<File>) returns (order: seq<File>)
    ensures OrderingOf(order, deleted)
    decreases deleted
  {
    if deleted == {} {
      order := [];
    } else {
      var f :| f in deleted;
      order := SomeOrder(deleted - {f});
      order := order + [f];
    }
  }

  /**
   When all owners of a slug are deleted, every order of deletion orphans it exactly when
   no owner lists it twice: an owner that does, deleted last, keeps the page.
   */
  lemma EveryOrderOrphansExactly(sources: Sources, deleted: set<File>, slug: Slug)
    requires exists f :: Owns(sources, f, slug)
    requires forall f :: Owns(sources, f, slug) ==> f in deleted
    ensures (forall order :: OrderingOf(order, deleted) ==> slug in OrphanedBy(sources, order))
      <==> ListedOnce(sources, slug)
  {
    if ListedOnce(sources, slug) {
      forall order | OrderingOf(order, deleted)
        ensures slug in OrphanedBy(sources, order)
      {
        OrphanedIffAllOwnersDeleted(sources, order, slug);
      }
    } else {
      var f :| Owns(sources, f, slug) && Lists(sources, f, slug) != 1;
      var others := SomeOrder(deleted - {f});
      var order := others + [f];
      assert OrderingOf(order, deleted);
      OrphanedExactly(sources, order, slug);
      forall i
        ensures !LastOwner(sources, order, i, slug)
      {
        if 0 <= i < |others| {
          assert order[..i] == others[..i];
          assert f !in others[..i];
        }
      }
    }
  }

  // ----- Frozen pages that nobody owns -----

  /** The frozen slugs that no source lists. */
  ghost function Unowned(sources: Sources, frozen: set<Slug>): set<Slug> {
    set s | s in frozen && !exists f :: Owns(sources, f, s)
  }

  method OrphanUnownedFrozenPages(store: WikiStore, draft: CompileStateDraft, frozen: set<Slug>)
    modifies store`pages
    ensures store.pages == Orphaned(old(store.pages), Unowned(draft.state.sources, frozen))
  {
    var sources := draft.state.sources;
    var owned: set<Slug> := {};
    var files := sources.Keys;
    while files != {}
      invariant files <= sources.Keys && store.pages == old(store.pages)
      invariant forall s :: s in owned <==> exists f :: f !in files && Owns(sources, f, s)
    {
      var f :| f in files;
      owned := owned + set s | s in sources[f].concepts;
      files := files - {f};
    }
    var writes: map<Slug, Page> := map[];
    var todo := frozen;
    while todo != {}
      invariant todo <= frozen && store.pages == old(store.pages)
      invariant writes.Keys <= store.pages.Keys
      invariant store.pages + writes == Orphaned(store.pages, Unowned(sources, frozen - todo))
    {
      var slug :| slug in todo;
      ghost var done := Unowned(sources, frozen - todo);
      assert frozen - (todo - {slug}) == (frozen - todo) + {slug};
      assert Unowned(sources, frozen - (todo - {slug})) == if slug in owned then done else done + {slug};
      if slug !in owned {
        OrphanStep(store.pages, writes, done, slug);
        writes := writes + OrphanPage(store.pages, slug);
      }
      todo := todo - {slug};
    }
    store.ApplyWrites(writes);
  }
}
