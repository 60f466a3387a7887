/**
 The review candidates that wait for approval, as far as a compile reads and changes them:
 where the page would land, and the hashes of the sources it was made from.
 */
module Pending {
  import opened Sequences
  import opened WikiState

  /** The page of a concept, or one that a compile never generates. */
  datatype Target = ConceptPage(slug: Slug) | OtherPage

  datatype Candidate = Candidate(target: Target, hashes: map<File, Hash>)

  /** The candidates in order of their time stamps. */
  type Candidates = seq<Candidate>

  /** For each file the hash that the latest candidate with an entry for it holds. */
  function SourceHashes(candidates: Candidates): map<File, Hash> {
    if candidates == [] then map[]
    else SourceHashes(candidates[..|candidates| - 1]) + candidates[|candidates| - 1].hashes
  }

  method CollectPendingSourceHashes(candidates: Candidates) returns (hashes: map<File, Hash>)
    ensures hashes == SourceHashes(candidates)
  {
    hashes := map[];
    for i := 0 to |candidates|
      invariant hashes == SourceHashes(candidates[..i])
    {
      assert candidates[..i + 1][..i] == candidates[..i];
      hashes := hashes + candidates[i].hashes;
    }
    assert candidates[..|candidates|] == candidates;
  }

  /** The candidates but those for one concept page. */
  function Without(candidates: Candidates, slug: Slug): Candidates {
    Keep(candidates, (c: Candidate) => c.target != ConceptPage(slug))
  }

  // ----- Removing and appending -----

  lemma HashesAppend(candidates: Candidates, c: Candidate)
    ensures SourceHashes(candidates + [c]) == SourceHashes(candidates) + c.hashes
  {
    assert (candidates + [c])[..|candidates|] == candidates;
  }

  lemma WithoutAppend(candidates: Candidates, c: Candidate, slug: Slug)
    ensures Without(candidates + [c], slug) ==
      if c.target == ConceptPage(slug) then Without(candidates, slug) else Without(candidates, slug) + [c]
  {
    assert (candidates + [c])[..|candidates|] == candidates;
  }

  lemma {:induction false} WithoutTwice(candidates: Candidates, s: Slug, t: Slug)
    ensures Without(Without(candidates, s), t) == Without(Without(candidates, t), s)
    ensures Without(Without(candidates, s), s) == Without(candidates, s)
  {
    if candidates != [] {
      var init, last := candidates[..|candidates| - 1], candidates[|candidates| - 1];
      assert candidates == init + [last];
      WithoutTwice(init, s, t);
      hide Without;
      WithoutAppend(init, last, s);
      WithoutAppend(init, last, t);
      WithoutAppend(Without(init, s), last, t);
      WithoutAppend(Without(init, s), last, s);
      WithoutAppend(Without(init, t), last, s);
    } else {
      assert Without([], s) == [] && Without([], t) == [];
    }
  }
}
