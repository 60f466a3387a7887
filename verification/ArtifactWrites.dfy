/**
 Writing an artifact under the held lock: authority and contract checks, the applied-once
 check, then both files under a journal that recovery can undo.
 */
module ArtifactWrites {
  import opened Artifacts
  import opened Options

  datatype Mutation = Mutation(key: Key, body: string)

  /** The pre-state that an open batch has recorded. */
  datatype Batch = Batch(key: Key, slot: Slot)

  /** Where the process stops, if it does. */
  datatype Crash = NoCrash | BeforeBatch | BatchOpen | BytesWritten | FilesWritten | Committed

  /** The operator's grant, whether the targets are regular files in place, and where the process stops. */
  datatype Surroundings = Surroundings(granted: bool, targetsRegular: bool, crash: Crash)

  datatype ApplyResult = Denied | Refused | TargetNotRegular | Applied(ref: ArtifactRef) | Crashed

  function RefOf(m: Measures, mutation: Mutation): ArtifactRef {
    ArtifactRef(mutation.key, m.digest(mutation.body))
  }

  function ManifestFor(m: Measures, def: ArtifactTypeDef, mutation: Mutation): Manifest {
    Manifest(mutation.key, m.digest(mutation.body), m.bytes(mutation.body), def.contentKind)
  }

  /** The plan allows a declared type and a body that meets its contract. */
  predicate PlanAllows(m: Measures, profile: Profile, mutation: Mutation) {
    mutation.key.artifactType in profile && !BodyViolates(m, profile[mutation.key.artifactType], mutation.body)
  }

  /** Manifest identity and on-disk bytes both verify. */
  predicate IsAlreadyApplied(m: Measures, slot: Slot, manifest: Manifest, maxBytes: nat) {
    && slot.manifest == ManifestOf(manifest)
    && var body := ReadArtifactBody(m, slot.body, maxBytes);
      body.ReadOk? && m.digest(body.body) == manifest.sha256 && m.bytes(body.body) == manifest.bytes
  }

  /** What recovery makes of the files that a crash left. */
  function Recovered(files: Files, journal: Option<Batch>): Files {
    if journal.Some? then files[journal.value.key := journal.value.slot] else files
  }

  ghost predicate SameFiles(a: Files, b: Files) {
    forall k :: SlotAt(a, k) == SlotAt(b, k)
  }

  ghost predicate SameElsewhere(a: Files, b: Files, key: Key) {
    forall k :: k != key ==> SlotAt(a, k) == SlotAt(b, k)
  }

  /** The artifact is written in full and nothing else changed. */
  ghost predicate WroteOnly(m: Measures, profile: Profile, before: Files, after: Files, mutation: Mutation) {
    && SameElsewhere(before, after, mutation.key)
    && PinnedAndHonest(m, profile, SlotAt(after, mutation.key), RefOf(m, mutation))
    && SlotAt(after, mutation.key).body == BodyOf(mutation.body)
  }

  /** A recovered crash left either nothing or the whole write. */
  ghost predicate RecoversWhole(m: Measures, profile: Profile, before: Files, recovered: Files, mutation: Mutation) {
    SameFiles(recovered, before) || WroteOnly(m, profile, before, recovered, mutation)
  }

  /** Applied-once means that the ref already resolves healthy, to this very body. */
  lemma AlreadyAppliedIff(m: Measures, profile: Profile, slot: Slot, mutation: Mutation)
    requires PlanAllows(m, profile, mutation) && forall a, b :: Injective(m.digest, a, b)
    ensures var def := profile[mutation.key.artifactType];
      IsAlreadyApplied(m, slot, ManifestFor(m, def, mutation), def.maxBytes) <==>
        PinnedAndHonest(m, profile, slot, RefOf(m, mutation))
    ensures PinnedAndHonest(m, profile, slot, RefOf(m, mutation)) ==> slot.body == BodyOf(mutation.body)
  {
    if slot.body.BodyOf? {
      assert Injective(m.digest, slot.body.body, mutation.body);
    }
  }

  lemma SlotWritten(m: Measures, profile: Profile, mutation: Mutation)
    requires PlanAllows(m, profile, mutation)
    ensures var def := profile[mutation.key.artifactType];
      PinnedAndHonest(m, profile, Slot(ManifestOf(ManifestFor(m, def, mutation)), BodyOf(mutation.body)), RefOf(m, mutation))
  {}

  class ArtifactStore {
    var files: Files
    var journal: Option<Batch>

    constructor (files: Files)
      ensures this.files == files && journal == None
    {
      this.files, journal := files, None;
    }

    method WriteManifest(key: Key, manifest: Manifest)
      modifies this`files
      ensures files == old(files)[key := SlotAt(old(files), key).(manifest := ManifestOf(manifest))]
    {
      files := files[key := SlotAt(files, key).(manifest := ManifestOf(manifest))];
    }

    method WriteBytes(key: Key, body: string)
      modifies this`files
      ensures files == old(files)[key := SlotAt(old(files), key).(body := BodyOf(body))]
    {
      files := files[key := SlotAt(files, key).(body := BodyOf(body))];
    }

    /** An open batch is undone. */
    method Recover()
      modifies this
      ensures files == Recovered(old(files), old(journal)) && journal == None
    {
      if journal.Some? {
        files := files[journal.value.key := journal.value.slot];
        journal := None;
      }
    }

    method ApplyArtifactLocked(m: Measures, profile: Profile, mutation: Mutation, w: Surroundings) returns (r: ApplyResult)
      requires journal == None
      requires forall a, b :: Injective(m.digest, a, b)
      modifies this
      ensures r == Denied <==> !PlanAllows(m, profile, mutation)
      ensures r == Refused <==> PlanAllows(m, profile, mutation) && !w.granted
      ensures r == TargetNotRegular <==> PlanAllows(m, profile, mutation) && w.granted && !w.targetsRegular
      ensures r in {Denied, Refused, TargetNotRegular} ==> files == old(files) && journal == None
      ensures r.Applied? ==> r.ref == RefOf(m, mutation) && WroteOnly(m, profile, old(files), files, mutation) && journal == None
      ensures r.Applied? && PinnedAndHonest(m, profile, SlotAt(old(files), mutation.key), RefOf(m, mutation)) ==>
        files == old(files)
      ensures r == Crashed <==>
        PlanAllows(m, profile, mutation) && w.granted && w.targetsRegular && w.crash != NoCrash &&
        !PinnedAndHonest(m, profile, SlotAt(old(files), mutation.key), RefOf(m, mutation))
      ensures r == Crashed ==> RecoversWhole(m, profile, old(files), Recovered(files, journal), mutation)
    {
      if !PlanAllows(m, profile, mutation) {
        return Denied;
      }
      if !w.granted {
        return Refused;
      }
      if !w.targetsRegular {
        return TargetNotRegular;
      }
      var def, key := profile[mutation.key.artifactType], mutation.key;
      var manifest := ManifestFor(m, def, mutation);
      AlreadyAppliedIff(m, profile, SlotAt(files, key), mutation);
      hide PlanAllows, IsAlreadyApplied, PinnedAndHonest;
      if IsAlreadyApplied(m, SlotAt(files, key), manifest, def.maxBytes) {
        return Applied(RefOf(m, mutation));
      }
      if w.crash == BeforeBatch {
        return Crashed;
      }
      journal := Some(Batch(key, SlotAt(files, key)));
      if w.crash == BatchOpen {
        return Crashed;
      }
      WriteBytes(key, mutation.body);
      if w.crash == BytesWritten {
        return Crashed;
      }
      WriteManifest(key, manifest);
      if w.crash == FilesWritten {
        return Crashed;
      }
      journal := None;
      SlotWritten(m, profile, mutation);
      assert WroteOnly(m, profile, old(files), files, mutation);
      if w.crash == Committed {
        return Crashed;
      }
      r := Applied(RefOf(m, mutation));
    }

    /** A write and, if the process died in it, the recovery at the next start. */
    method ApplyThenRecover(m: Measures, profile: Profile, mutation: Mutation, w: Surroundings) returns (r: ApplyResult)
      requires journal == None
      requires forall a, b :: Injective(m.digest, a, b)
      modifies this
      ensures journal == None
      ensures r.Applied? ==> r.ref == RefOf(m, mutation) && WroteOnly(m, profile, old(files), files, mutation)
      ensures r == Crashed ==> w.crash != NoCrash && RecoversWhole(m, profile, old(files), files, mutation)
      ensures !r.Applied? && r != Crashed ==> files == old(files)
    {
      hide PlanAllows, WroteOnly, RecoversWhole;
      r := ApplyArtifactLocked(m, profile, mutation, w);
      if r == Crashed {
        Recover();
      }
    }
  }

  /** A written artifact's ref resolves healthy under the profile it was written under, so a field that pins it is met. */
  lemma WrittenRefIsHealthy(m: Measures, profile: Profile, before: Files, after: Files, mutation: Mutation,
                            refs: PageRefs, req: Requirement)
    requires WroteOnly(m, profile, before, after, mutation)
    ensures ResolveArtifactRef(m, profile, after, RefOf(m, mutation)).health == Healthy
    ensures req.field in refs && refs[req.field] == RefOf(m, mutation) && req.artifactType == mutation.key.artifactType ==>
      RequirementVerdict(m, profile, after, refs, req) == Pass
  {
    HealthyIff(m, profile, after, RefOf(m, mutation));
  }

  /** Writing another body under the same key breaks every ref to the old one, and the gate denies it. */
  lemma RewriteBreaksOldRefs(m: Measures, profile: Profile, before: Files, after: Files, mutation: Mutation, ref: ArtifactRef)
    requires WroteOnly(m, profile, before, after, mutation)
    requires ref.key == mutation.key && ref.sha256 != m.digest(mutation.body)
    ensures ClassifyArtifactHealth(ResolveArtifactRef(m, profile, after, ref)) == Deny
    ensures ResolveArtifactRef(m, profile, after, ref).health == HashMismatch
  {}

  /** A write changes no verdict about another artifact. */
  lemma WriteKeepsOtherVerdicts(m: Measures, profile: Profile, before: Files, after: Files, mutation: Mutation, ref: ArtifactRef)
    requires WroteOnly(m, profile, before, after, mutation) && ref.key != mutation.key
    ensures ResolveArtifactRef(m, profile, after, ref) == ResolveArtifactRef(m, profile, before, ref)
  {
    assert SlotAt(after, ref.key) == SlotAt(before, ref.key);
  }
}
