/**
 Hash-pinned artifacts: resolving a pinned ref against the bytes on disk, writing an
 artifact under the journal, and the gate that requires pinned artifacts to be healthy.
 */
module Artifacts {
  import opened Options

  datatype ContentKind = Json | Plain

  /** How bodies are measured and hashed. */
  datatype Measures = Measures(digest: string -> string, bytes: string -> nat)

  /** `breaks` says that a body violates the type's content contract, its size apart. */
  datatype ArtifactTypeDef = ArtifactTypeDef(contentKind: ContentKind, maxBytes: nat, breaks: string -> bool)

  type Profile = map<string, ArtifactTypeDef>

  datatype Key = Key(artifactType: string, slug: string)

  datatype ArtifactRef = ArtifactRef(key: Key, sha256: string)

  datatype Manifest = Manifest(key: Key, sha256: string, bytes: nat, contentKind: ContentKind)

  datatype ManifestFile = NoManifest | UnreadableManifest | MalformedManifest | ManifestOf(manifest: Manifest)

  datatype BodyFile = NoBody | UnreadableBody | BodyOf(body: string)

  /** The two files of one artifact. */
  datatype Slot = Slot(manifest: ManifestFile, body: BodyFile)

  type Files = map<Key, Slot>

  function SlotAt(files: Files, key: Key): Slot {
    if key in files then files[key] else Slot(NoManifest, NoBody)
  }

  // ----- Resolving -----

  datatype Health = Healthy | Dangling | Unreadable | BytesTampered | SchemaInvalid | HashMismatch | StoreUnavailable

  datatype StoreFault = GenuineFault | IntegrityLie

  datatype Resolution = Resolution(health: Health, storeFault: Option<StoreFault>)

  datatype BodyRead = ReadAbsent | ReadUnavailable | ReadOversize(actualBytes: nat) | ReadOk(body: string)

  function ReadArtifactBody(m: Measures, file: BodyFile, maxBytes: nat): BodyRead {
    match file
    case NoBody => ReadAbsent
    case UnreadableBody => ReadUnavailable
    case BodyOf(body) => if m.bytes(body) > maxBytes then ReadOversize(m.bytes(body)) else ReadOk(body)
  }

  predicate BodyViolates(m: Measures, def: ArtifactTypeDef, body: string) {
    m.bytes(body) > def.maxBytes || def.breaks(body)
  }

  function Verdict(health: Health): Resolution {
    Resolution(health, None)
  }

  function VerifyOkBody(m: Measures, def: ArtifactTypeDef, ref: ArtifactRef, manifest: Manifest, body: string): Resolution {
    if manifest.bytes != m.bytes(body) then Resolution(StoreUnavailable, Some(IntegrityLie))
    else if m.digest(body) != manifest.sha256 then Verdict(BytesTampered)
    else if m.digest(body) != ref.sha256 then Verdict(HashMismatch)
    else if BodyViolates(m, def, body) then Verdict(SchemaInvalid)
    else Verdict(Healthy)
  }

  /** The manifest lies about what it describes. */
  predicate ManifestIntegrityLie(def: ArtifactTypeDef, ref: ArtifactRef, manifest: Manifest) {
    manifest.key != ref.key || manifest.contentKind != def.contentKind
  }

  function ResolveArtifactRef(m: Measures, profile: Profile, files: Files, ref: ArtifactRef): Resolution {
    if ref.key.artifactType !in profile then Verdict(Dangling)
    else
      var def, slot := profile[ref.key.artifactType], SlotAt(files, ref.key);
      var body := ReadArtifactBody(m, slot.body, def.maxBytes);
      if slot.manifest.ManifestOf? && ManifestIntegrityLie(def, ref, slot.manifest.manifest) then
        Resolution(StoreUnavailable, Some(IntegrityLie))
      else if slot.manifest.NoManifest? || body.ReadAbsent? then Verdict(Dangling)
      else if slot.manifest.UnreadableManifest? || body.ReadUnavailable? then Verdict(Unreadable)
      else if slot.manifest.MalformedManifest? then Resolution(StoreUnavailable, Some(GenuineFault))
      else
        var manifest := slot.manifest.manifest;
        match body
        case ReadOversize(actualBytes) => Verdict(if actualBytes != manifest.bytes then BytesTampered else Unreadable)
        case ReadOk(text) => VerifyOkBody(m, def, ref, manifest, text)
  }

  /** The bytes on disk have the pinned hash and meet the contract, and the manifest tells the truth about them. */
  predicate PinnedAndHonest(m: Measures, profile: Profile, slot: Slot, ref: ArtifactRef) {
    && ref.key.artifactType in profile
    && slot.body.BodyOf? && m.digest(slot.body.body) == ref.sha256
    && !BodyViolates(m, profile[ref.key.artifactType], slot.body.body)
    && slot.manifest == ManifestOf(
      Manifest(ref.key, ref.sha256, m.bytes(slot.body.body), profile[ref.key.artifactType].contentKind))
  }

  lemma HealthyIff(m: Measures, profile: Profile, files: Files, ref: ArtifactRef)
    ensures ResolveArtifactRef(m, profile, files, ref).health == Healthy
      <==> PinnedAndHonest(m, profile, SlotAt(files, ref.key), ref)
  {}

  predicate Injective(digest: string -> string, a: string, b: string) {
    digest(a) == digest(b) ==> a == b
  }

  /** A ref resolves healthy to one body at most, in whatever store and under whatever profile. */
  lemma HealthyBodyIsUnique(m: Measures, p1: Profile, f1: Files, p2: Profile, f2: Files, ref: ArtifactRef)
    requires ResolveArtifactRef(m, p1, f1, ref).health == Healthy && ResolveArtifactRef(m, p2, f2, ref).health == Healthy
    requires forall a, b :: Injective(m.digest, a, b)
    ensures SlotAt(f1, ref.key).body == SlotAt(f2, ref.key).body
  {
    HealthyIff(m, p1, f1, ref);
    HealthyIff(m, p2, f2, ref);
    assert Injective(m.digest, SlotAt(f1, ref.key).body.body, SlotAt(f2, ref.key).body.body);
  }

  // ----- The gate -----

  datatype GateVerdict = Pass | Deny | Park

  function ClassifyArtifactHealth(r: Resolution): GateVerdict {
    match r.health
    case Healthy => Pass
    case Unreadable => Park
    case StoreUnavailable => if r.storeFault == Some(GenuineFault) then Park else Deny
    case _ => Deny
  }

  // ----- The verdict from the two files -----

  /** The manifest file can be read and describes another artifact, or another kind of content. */
  predicate DescribesAnother(def: ArtifactTypeDef, slot: Slot, ref: ArtifactRef) {
    slot.manifest.ManifestOf? && (slot.manifest.manifest.key != ref.key || slot.manifest.manifest.contentKind != def.contentKind)
  }

  /** The body is longer than the type allows, as its manifest says. */
  predicate HonestlyOversized(m: Measures, def: ArtifactTypeDef, slot: Slot) {
    && slot.body.BodyOf? && m.bytes(slot.body.body) > def.maxBytes
    && slot.manifest.ManifestOf? && slot.manifest.manifest.bytes == m.bytes(slot.body.body)
  }

  /** Both files are there, and what can be read of them neither proves nor refutes the ref. */
  predicate CannotVerify(m: Measures, def: ArtifactTypeDef, slot: Slot, ref: ArtifactRef) {
    && !slot.manifest.NoManifest? && !slot.body.NoBody? && !DescribesAnother(def, slot, ref)
    && (!slot.manifest.ManifestOf? || slot.body.UnreadableBody? || HonestlyOversized(m, def, slot))
  }

  /** Both files can be read, and the body is not what the manifest and the ref say, or breaks the contract within its size. */
  predicate BodyRefutes(m: Measures, def: ArtifactTypeDef, slot: Slot, ref: ArtifactRef) {
    slot.manifest.ManifestOf? && slot.body.BodyOf? &&
    var body, manifest := slot.body.body, slot.manifest.manifest;
    || manifest.bytes != m.bytes(body)
    || (m.bytes(body) <= def.maxBytes && (m.digest(body) != manifest.sha256 || m.digest(body) != ref.sha256 || def.breaks(body)))
  }

  /** The type is unknown, a file is missing, the manifest is of another artifact, or the body is refuted. */
  predicate RefutedByFiles(m: Measures, profile: Profile, slot: Slot, ref: ArtifactRef) {
    || ref.key.artifactType !in profile || slot.manifest.NoManifest? || slot.body.NoBody?
    || DescribesAnother(profile[ref.key.artifactType], slot, ref)
    || BodyRefutes(m, profile[ref.key.artifactType], slot, ref)
  }

  /**
   The verdict from the two files: refuted ones are denied, what cannot be verified is parked, and a pinned body with an
   honest manifest passes.
   */
  lemma VerdictFromFiles(m: Measures, profile: Profile, files: Files, ref: ArtifactRef)
    ensures var slot, verdict := SlotAt(files, ref.key), ClassifyArtifactHealth(ResolveArtifactRef(m, profile, files, ref));
      && (verdict == Pass <==> PinnedAndHonest(m, profile, slot, ref))
      && (verdict == Park <==>
        ref.key.artifactType in profile && CannotVerify(m, profile[ref.key.artifactType], slot, ref))
      && (verdict == Deny <==> RefutedByFiles(m, profile, slot, ref))
  {}

  /** The files lie: the manifest is of another artifact, or tells another length of a body within its limit. */
  predicate FilesLie(m: Measures, def: ArtifactTypeDef, slot: Slot, ref: ArtifactRef) {
    || DescribesAnother(def, slot, ref)
    || (slot.manifest.ManifestOf? && slot.body.BodyOf? && m.bytes(slot.body.body) <= def.maxBytes &&
        slot.manifest.manifest.bytes != m.bytes(slot.body.body))
  }

  /** Both files can be read, they do not lie, and the body is within its limit. */
  predicate Readable(m: Measures, def: ArtifactTypeDef, slot: Slot, ref: ArtifactRef) {
    && slot.manifest.ManifestOf? && slot.body.BodyOf? && m.bytes(slot.body.body) <= def.maxBytes
    && !FilesLie(m, def, slot, ref)
  }

  /** The health that is reported, name by name. */
  lemma HealthFromFiles(m: Measures, profile: Profile, files: Files, ref: ArtifactRef)
    requires ref.key.artifactType in profile
    ensures var slot, def, health := SlotAt(files, ref.key), profile[ref.key.artifactType],
        ResolveArtifactRef(m, profile, files, ref).health;
      var missing := slot.manifest.NoManifest? || slot.body.NoBody?;
      var digest := if slot.body.BodyOf? then m.digest(slot.body.body) else "";
      && (health == Dangling <==> !DescribesAnother(def, slot, ref) && missing)
      && (health == Unreadable <==> CannotVerify(m, def, slot, ref) && !(slot.manifest.MalformedManifest? && slot.body.BodyOf?))
      && (health == StoreUnavailable <==>
        FilesLie(m, def, slot, ref) || (slot.manifest.MalformedManifest? && slot.body.BodyOf?))
      && (health == HashMismatch <==>
        Readable(m, def, slot, ref) && digest == slot.manifest.manifest.sha256 && digest != ref.sha256)
      && (health == SchemaInvalid <==>
        Readable(m, def, slot, ref) && digest == slot.manifest.manifest.sha256 == ref.sha256 && def.breaks(slot.body.body))
  {}

  /** Changing the bytes of a healthy artifact turns the gate's verdict to a denial. */
  lemma ByteChangeIsDenied(m: Measures, profile: Profile, files: Files, ref: ArtifactRef, body: string)
    requires ResolveArtifactRef(m, profile, files, ref).health == Healthy
    requires BodyOf(body) != SlotAt(files, ref.key).body && forall a, b :: Injective(m.digest, a, b)
    ensures var tampered := files[ref.key := SlotAt(files, ref.key).(body := BodyOf(body))];
      ClassifyArtifactHealth(ResolveArtifactRef(m, profile, tampered, ref)) == Deny
  {
    HealthyIff(m, profile, files, ref);
    assert Injective(m.digest, SlotAt(files, ref.key).body.body, body);
  }

  datatype Requirement = Requirement(field: string, artifactType: string)

  /** The refs that the page's fields carry, where they parse. */
  type PageRefs = map<string, ArtifactRef>

  /** What one requirement contributes. */
  function RequirementVerdict(m: Measures, profile: Profile, files: Files, refs: PageRefs, req: Requirement): GateVerdict {
    if req.field !in refs then Deny
    else if refs[req.field].key.artifactType != req.artifactType then Deny
    else ClassifyArtifactHealth(ResolveArtifactRef(m, profile, files, refs[req.field]))
  }

  datatype GateResult = Allowed | Unmet(denials: seq<string>) | Unverifiable(parks: seq<string>)

  function FieldsWith(m: Measures, profile: Profile, files: Files, refs: PageRefs, reqs: seq<Requirement>,
                      verdict: GateVerdict): seq<string> {
    if reqs == [] then []
    else
      var last := reqs[|reqs| - 1];
      FieldsWith(m, profile, files, refs, reqs[..|reqs| - 1], verdict) +
        if RequirementVerdict(m, profile, files, refs, last) == verdict then [last.field] else []
  }

  function GateOutcome(m: Measures, profile: Profile, files: Files, refs: PageRefs, reqs: seq<Requirement>): GateResult {
    var denials, parks := FieldsWith(m, profile, files, refs, reqs, Deny), FieldsWith(m, profile, files, refs, reqs, Park);
    if denials != [] then Unmet(denials) else if parks != [] then Unverifiable(parks) else Allowed
  }

  method EnforceArtifactPreconditions(m: Measures, profile: Profile, files: Files, refs: PageRefs, reqs: seq<Requirement>)
    returns (r: GateResult)
    ensures r == GateOutcome(m, profile, files, refs, reqs)
  {
    var denials: seq<string>, parks: seq<string> := [], [];
    for i := 0 to |reqs|
      invariant denials == FieldsWith(m, profile, files, refs, reqs[..i], Deny)
      invariant parks == FieldsWith(m, profile, files, refs, reqs[..i], Park)
    {
      var req := reqs[i];
      assert reqs[..i + 1][..i] == reqs[..i];
      if req.field !in refs {
        denials := denials + [req.field];
        continue;
      }
      var ref := refs[req.field];
      if ref.key.artifactType != req.artifactType {
        denials := denials + [req.field];
        continue;
      }
      match ClassifyArtifactHealth(ResolveArtifactRef(m, profile, files, ref))
      case Deny => denials := denials + [req.field];
      case Park => parks := parks + [req.field];
      case Pass =>
    }
    assert reqs[..|reqs|] == reqs;
    if |denials| > 0 {
      return Unmet(denials);
    }
    if |parks| > 0 {
      return Unverifiable(parks);
    }
    r := Allowed;
  }

  lemma {:induction false} FieldsWithVerdict(m: Measures, profile: Profile, files: Files, refs: PageRefs,
                                             reqs: seq<Requirement>, verdict: GateVerdict)
    ensures FieldsWith(m, profile, files, refs, reqs, verdict) == []
      <==> forall req :: req in reqs ==> RequirementVerdict(m, profile, files, refs, req) != verdict
  {
    hide RequirementVerdict;
    if reqs != [] {
      var init, last := reqs[..|reqs| - 1], reqs[|reqs| - 1];
      FieldsWithVerdict(m, profile, files, refs, init, verdict);
      assert reqs == init + [last];
      assert forall req :: req in reqs <==> req in init || req == last;
    }
  }

  /** The required field pins a healthy artifact of the required type. */
  predicate Met(m: Measures, profile: Profile, files: Files, refs: PageRefs, req: Requirement) {
    req.field in refs && refs[req.field].key.artifactType == req.artifactType &&
    PinnedAndHonest(m, profile, SlotAt(files, refs[req.field].key), refs[req.field])
  }

  /** The required field pins an artifact of the required type that cannot be verified. */
  predicate Unverified(m: Measures, profile: Profile, files: Files, refs: PageRefs, req: Requirement) {
    req.field in refs && refs[req.field].key.artifactType == req.artifactType && req.artifactType in profile &&
    CannotVerify(m, profile[req.artifactType], SlotAt(files, refs[req.field].key), refs[req.field])
  }

  /** The field carries no ref of the required type, or one that its two files refute. */
  predicate Refused(m: Measures, profile: Profile, files: Files, refs: PageRefs, req: Requirement) {
    || req.field !in refs || refs[req.field].key.artifactType != req.artifactType
    || RefutedByFiles(m, profile, SlotAt(files, refs[req.field].key), refs[req.field])
  }

  lemma VerdictOfRequirement(m: Measures, profile: Profile, files: Files, refs: PageRefs, req: Requirement)
    ensures RequirementVerdict(m, profile, files, refs, req) == Pass <==> Met(m, profile, files, refs, req)
    ensures RequirementVerdict(m, profile, files, refs, req) == Park <==> Unverified(m, profile, files, refs, req)
    ensures RequirementVerdict(m, profile, files, refs, req) == Deny <==> Refused(m, profile, files, refs, req)
  {
    hide ResolveArtifactRef, ClassifyArtifactHealth, CannotVerify, RefutedByFiles, PinnedAndHonest;
    if req.field in refs {
      VerdictFromFiles(m, profile, files, refs[req.field]);
    }
  }

  lemma {:induction false} FieldsMembers(m: Measures, profile: Profile, files: Files, refs: PageRefs,
                                         reqs: seq<Requirement>, verdict: GateVerdict, field: string)
    ensures field in FieldsWith(m, profile, files, refs, reqs, verdict)
      <==> exists req :: req in reqs && req.field == field && RequirementVerdict(m, profile, files, refs, req) == verdict
  {
    hide RequirementVerdict;
    if reqs != [] {
      var init, last := reqs[..|reqs| - 1], reqs[|reqs| - 1];
      FieldsMembers(m, profile, files, refs, init, verdict, field);
      assert reqs == init + [last];
      assert forall req :: req in reqs <==> req in init || req == last;
    }
  }

  /** The gate passes exactly when every requirement is met, and any denial beats every park. */
  lemma GatePassesIff(m: Measures, profile: Profile, files: Files, refs: PageRefs, reqs: seq<Requirement>)
    ensures GateOutcome(m, profile, files, refs, reqs) == Allowed
      <==> forall req :: req in reqs ==> Met(m, profile, files, refs, req)
    ensures GateOutcome(m, profile, files, refs, reqs).Unmet?
      <==> exists req :: req in reqs && Refused(m, profile, files, refs, req)
  {
    FieldsWithVerdict(m, profile, files, refs, reqs, Deny);
    FieldsWithVerdict(m, profile, files, refs, reqs, Park);
    hide FieldsWith, RequirementVerdict, Met, Refused, Unverified;
    forall req
      ensures RequirementVerdict(m, profile, files, refs, req) == Pass <==> Met(m, profile, files, refs, req)
      ensures RequirementVerdict(m, profile, files, refs, req) == Deny <==> Refused(m, profile, files, refs, req)
    {
      VerdictOfRequirement(m, profile, files, refs, req);
    }
  }

  /** A denial names the refused fields, and a park the unverified ones, and nothing else. */
  lemma GateNamesFields(m: Measures, profile: Profile, files: Files, refs: PageRefs, reqs: seq<Requirement>, field: string)
    ensures var r := GateOutcome(m, profile, files, refs, reqs);
      && (r.Unmet? ==>
        (field in r.denials <==> exists req :: req in reqs && req.field == field && Refused(m, profile, files, refs, req)))
      && (r.Unverifiable? ==>
        (field in r.parks <==> exists req :: req in reqs && req.field == field && Unverified(m, profile, files, refs, req)))
  {
    FieldsMembers(m, profile, files, refs, reqs, Deny, field);
    FieldsMembers(m, profile, files, refs, reqs, Park, field);
    hide FieldsWith, RequirementVerdict, Met, Refused, Unverified;
    forall req
      ensures RequirementVerdict(m, profile, files, refs, req) == Park <==> Unverified(m, profile, files, refs, req)
      ensures RequirementVerdict(m, profile, files, refs, req) == Deny <==> Refused(m, profile, files, refs, req)
    {
      VerdictOfRequirement(m, profile, files, refs, req);
    }
  }
}
