/**
 What generating pages does to the pending candidates: a held page becomes the latest
 candidate for its concept, a live one deletes those there were, whether or not the run
 comes to write anything.
 */
module Generation {
  import opened ExtractionPhase
  import opened Pending
  import opened Sequences
  import opened WikiState

  /** In a review run every page that is rendered is held. */
  function GeneratedAs(run: Run, slug: Slug): PageOutcome {
    if run.review && run.generate(slug) != Throws then Held else run.generate(slug)
  }

  /** The candidate of a held page carries the digests of the batch sources that yield its concept. */
  function CandidateFor(run: Run, batch: set<File>, slug: Slug): Candidate {
    Candidate(ConceptPage(slug), map f | f in batch && Yields(run, f, slug) :: run.disk[f])
  }

  /** Generating the page touches the candidates for its concept. */
  predicate Touches(run: Run, slug: Slug) {
    GeneratedAs(run, slug) in {Held, Skipped, Written}
  }

  /** The candidates after one page was generated. */
  function AfterPage(run: Run, batch: set<File>, candidates: Candidates, slug: Slug): Candidates {
    match GeneratedAs(run, slug)
    case Throws => candidates
    case Invalid => candidates
    case Held => Without(candidates, slug) + [CandidateFor(run, batch, slug)]
    case Skipped => Without(candidates, slug)
    case Written => Without(candidates, slug)
  }

  /** The candidates after some pages were generated, one after the other. */
  function AfterPages(run: Run, batch: set<File>, candidates: Candidates, slugs: seq<Slug>): Candidates {
    if slugs == [] then candidates
    else AfterPage(run, batch, AfterPages(run, batch, candidates, slugs[..|slugs| - 1]), slugs[|slugs| - 1])
  }

  lemma AfterOneMore(run: Run, batch: set<File>, candidates: Candidates, slugs: seq<Slug>, slug: Slug)
    ensures AfterPages(run, batch, candidates, slugs + [slug]) ==
      AfterPage(run, batch, AfterPages(run, batch, candidates, slugs), slug)
  {
    hide AfterPage;
    assert (slugs + [slug])[..|slugs|] == slugs;
  }

  lemma NoPages(run: Run, batch: set<File>, candidates: Candidates)
    ensures AfterPages(run, batch, candidates, []) == candidates
  {}

  lemma OnlyPage(run: Run, batch: set<File>, candidates: Candidates, slug: Slug)
    ensures AfterPages(run, batch, candidates, [slug]) == AfterPage(run, batch, candidates, slug)
  {
    assert [slug][..0] == [];
  }

  lemma {:induction false} AfterBoth(run: Run, batch: set<File>, candidates: Candidates, a: seq<Slug>, b: seq<Slug>)
    ensures AfterPages(run, batch, candidates, a + b) ==
      AfterPages(run, batch, AfterPages(run, batch, candidates, a), b)
    decreases |b|
  {
    hide AfterPage;
    if b == [] {
      assert a + b == a;
    } else {
      var init, last := b[..|b| - 1], b[|b| - 1];
      AfterBoth(run, batch, candidates, a, init);
      assert a + b == (a + init) + [last] && b == init + [last];
      AfterOneMore(run, batch, candidates, a + init, last);
      AfterOneMore(run, batch, AfterPages(run, batch, candidates, a), init, last);
    }
  }

  // ----- Generating a page again -----

  /** Other pages leave the candidates for a concept alone. */
  lemma {:induction false} WithoutCommutes(run: Run, batch: set<File>, candidates: Candidates, slugs: seq<Slug>, s: Slug)
    requires s !in slugs
    ensures Without(AfterPages(run, batch, candidates, slugs), s) == AfterPages(run, batch, Without(candidates, s), slugs)
    decreases |slugs|
  {
    if slugs != [] {
      var init, last := slugs[..|slugs| - 1], slugs[|slugs| - 1];
      WithoutCommutes(run, batch, candidates, init, s);
      OnePageCommutes(run, batch, AfterPages(run, batch, candidates, init), last, s);
    }
  }

  lemma OnePageCommutes(run: Run, batch: set<File>, candidates: Candidates, t: Slug, s: Slug)
    requires t != s
    ensures Without(AfterPage(run, batch, candidates, t), s) == AfterPage(run, batch, Without(candidates, s), t)
  {
    hide Without;
    WithoutTwice(candidates, t, s);
    WithoutAppend(Without(candidates, t), CandidateFor(run, batch, t), s);
  }

  lemma AfterPageForgets(run: Run, batch: set<File>, candidates: Candidates, s: Slug)
    ensures Touches(run, s) ==>
      Without(AfterPage(run, batch, candidates, s), s) == Without(candidates, s)
    ensures Touches(run, s) ==>
      AfterPage(run, batch, Without(candidates, s), s) == AfterPage(run, batch, candidates, s)
    ensures !Touches(run, s) ==> AfterPage(run, batch, candidates, s) == candidates
  {
    hide Without;
    WithoutTwice(candidates, s, s);
    WithoutAppend(Without(candidates, s), CandidateFor(run, batch, s), s);
  }

  /** A page that is generated again among others might as well have been generated then only. */
  lemma GeneratedAgain(run: Run, batch: set<File>, candidates: Candidates, slugs: seq<Slug>, s: Slug)
    requires s in slugs && Distinct(slugs)
    ensures AfterPages(run, batch, AfterPage(run, batch, candidates, s), slugs) == AfterPages(run, batch, candidates, slugs)
  {
    hide AfterPages, AfterPage, Touches;
    AfterPageForgets(run, batch, candidates, s);
    if Touches(run, s) {
      var i :| 0 <= i < |slugs| && slugs[i] == s;
      var a, b := slugs[..i], slugs[i + 1..];
      assert slugs == a + [s] + b && s !in a;
      TouchedAgain(run, batch, candidates, a, s);
      AfterBoth(run, batch, AfterPage(run, batch, candidates, s), a + [s], b);
      AfterBoth(run, batch, candidates, a + [s], b);
    }
  }

  lemma TouchedAgain(run: Run, batch: set<File>, candidates: Candidates, a: seq<Slug>, s: Slug)
    requires s !in a && Touches(run, s)
    ensures AfterPages(run, batch, AfterPage(run, batch, candidates, s), a + [s]) ==
      AfterPages(run, batch, candidates, a + [s])
  {
    hide AfterPages, AfterPage, Touches, Without;
    var once := AfterPage(run, batch, candidates, s);
    AfterOneMore(run, batch, once, a, s);
    AfterOneMore(run, batch, candidates, a, s);
    AfterPageForgets(run, batch, candidates, s);
    AfterPageForgets(run, batch, AfterPages(run, batch, once, a), s);
    AfterPageForgets(run, batch, AfterPages(run, batch, candidates, a), s);
    WithoutCommutes(run, batch, once, a, s);
    WithoutCommutes(run, batch, candidates, a, s);
  }

  function Minus(a: seq<Slug>, b: seq<Slug>): seq<Slug> {
    Keep(a, (s: Slug) => s !in b)
  }

  lemma MinusMore(init: seq<Slug>, last: Slug, b: seq<Slug>)
    requires last !in init && last !in b
    ensures Minus(init, [last] + b) == Minus(init, b) && Minus(init + [last], b) == Minus(init, b) + [last]
  {
    KeepAgrees(init, (s: Slug) => s !in [last] + b, (s: Slug) => s !in b);
    assert (init + [last])[..|init|] == init;
  }

  lemma MinusLess(init: seq<Slug>, last: Slug, b: seq<Slug>)
    requires last in b
    ensures Minus(init + [last], b) == Minus(init, b)
  {
    assert (init + [last])[..|init|] == init;
  }

  /** What some pages left is overwritten by the pages generated next. */
  lemma {:induction false} Overwritten(run: Run, batch: set<File>, candidates: Candidates, a: seq<Slug>, b: seq<Slug>)
    requires Distinct(a) && Distinct(b)
    ensures AfterPages(run, batch, AfterPages(run, batch, candidates, a), b) ==
      AfterPages(run, batch, candidates, Minus(a, b) + b)
    decreases |a|
  {
    if a == [] {
      assert Minus(a, b) + b == b;
    } else {
      var init, last := a[..|a| - 1], a[|a| - 1];
      var before := AfterPages(run, batch, candidates, init);
      assert AfterPages(run, batch, candidates, a) == AfterPage(run, batch, before, last);
      assert a == init + [last];
      hide AfterPage, AfterPages, Minus;
      if last in b {
        MinusLess(init, last, b);
        GeneratedAgain(run, batch, before, b, last);
        Overwritten(run, batch, candidates, init, b);
      } else {
        AfterBoth(run, batch, before, [last], b);
        OnlyPage(run, batch, before, last);
        Overwritten(run, batch, candidates, init, [last] + b);
        MinusMore(init, last, b);
        assert Minus(init, b) + ([last] + b) == Minus(init, b) + [last] + b;
      }
    }
  }

  // ----- Which sources are covered afterwards -----

  /** One of the pages is held, and made from this source. */
  predicate HeldFrom(run: Run, batch: set<File>, slugs: seq<Slug>, f: File) {
    f in batch && exists s :: s in slugs && GeneratedAs(run, s) == Held && Yields(run, f, s)
  }

  /** The candidates that generating the pages does not touch. */
  function Untouched(run: Run, candidates: Candidates, slugs: seq<Slug>): Candidates {
    Keep(candidates, (c: Candidate) => !TouchesOneOf(run, slugs, c))
  }

  predicate TouchesOneOf(run: Run, slugs: seq<Slug>, c: Candidate) {
    c.target.ConceptPage? && c.target.slug in slugs && Touches(run, c.target.slug)
  }

  lemma UntouchedStep(run: Run, candidates: Candidates, init: seq<Slug>, s: Slug)
    ensures Untouched(run, candidates, init + [s]) ==
      if Touches(run, s) then Untouched(run, Without(candidates, s), init) else Untouched(run, candidates, init)
  {
    var p, q := (c: Candidate) => c.target != ConceptPage(s), (c: Candidate) => !TouchesOneOf(run, init, c);
    var r := (c: Candidate) => !TouchesOneOf(run, init + [s], c);
    hide Touches;
    if Touches(run, s) {
      KeepTwice(candidates, p, q, r);
    } else {
      KeepAgrees(candidates, q, r);
    }
  }

  /** Two collections of hashes agree on a file. */
  predicate SameHash(a: map<File, Hash>, b: map<File, Hash>, f: File) {
    (f in a <==> f in b) && (f in a ==> a[f] == b[f])
  }

  /** A source of a held page is covered at its current digest, any other as the untouched candidates have it. */
  lemma {:induction false} HashesAfterPages(run: Run, batch: set<File>, candidates: Candidates, slugs: seq<Slug>, f: File)
    requires Distinct(slugs)
    ensures var hashes := SourceHashes(AfterPages(run, batch, candidates, slugs));
      if HeldFrom(run, batch, slugs, f) then f in run.disk && f in hashes && hashes[f] == run.disk[f]
      else SameHash(hashes, SourceHashes(Untouched(run, candidates, slugs)), f)
    decreases |slugs|
  {
    if slugs == [] {
      NothingTouched(run, candidates);
    } else {
      var init, s := slugs[..|slugs| - 1], slugs[|slugs| - 1];
      assert slugs == init + [s] && s !in init;
      assert AfterPages(run, batch, candidates, slugs) == AfterPage(run, batch, AfterPages(run, batch, candidates, init), s);
      hide AfterPages, AfterPage, Untouched, HeldFrom, SourceHashes, Without, Yields, Touches;
      UntouchedStep(run, candidates, init, s);
      HeldStep(run, batch, init, s, f);
      WithoutCommutes(run, batch, candidates, init, s);
      HashesAfterPages(run, batch, if Touches(run, s) then Without(candidates, s) else candidates, init, f);
      HashesAfterPage(run, batch, AfterPages(run, batch, candidates, init), s, f);
    }
  }

  /** The hashes after one page, of the candidates for other pages or of a new one. */
  lemma HashesAfterPage(run: Run, batch: set<File>, candidates: Candidates, s: Slug, f: File)
    ensures var hashes := SourceHashes(AfterPage(run, batch, candidates, s));
      if GeneratedAs(run, s) == Held && f in batch && Yields(run, f, s)
      then f in run.disk && f in hashes && hashes[f] == run.disk[f]
      else SameHash(hashes, SourceHashes(if Touches(run, s) then Without(candidates, s) else candidates), f)
  {
    hide Without;
    HashesAppend(Without(candidates, s), CandidateFor(run, batch, s));
    hide SourceHashes;
  }

  lemma NothingTouched(run: Run, candidates: Candidates)
    ensures Untouched(run, candidates, []) == candidates
  {
    KeepAll(candidates, (c: Candidate) => !TouchesOneOf(run, [], c));
  }

  lemma HeldStep(run: Run, batch: set<File>, init: seq<Slug>, s: Slug, f: File)
    ensures HeldFrom(run, batch, init + [s], f) <==>
      HeldFrom(run, batch, init, f) || (f in batch && GeneratedAs(run, s) == Held && Yields(run, f, s))
  {
    hide Yields, GeneratedAs;
    assert forall t :: t in init + [s] <==> t in init || t == s;
  }
}
