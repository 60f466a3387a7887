/**
 Change detection: the sources on disk, by digest, against the recorded hashes.
 */
module Hasher {
  import opened Sequences
  import opened WikiState

  /** The markdown files under sources/ with the digests of their contents. */
  type Disk = map<File, Hash>

  function Classify(disk: Disk, sources: Sources, file: File): Status
    requires file in disk
  {
    if file !in sources then New
    else if sources[file].hash != disk[file] then Changed
    else Unchanged
  }

  /** The status of any file on disk or in the state. */
  function StatusOf(disk: Disk, sources: Sources, file: File): Status {
    if file in disk then Classify(disk, sources, file) else Deleted
  }

  /** One change for every file on disk or in the state, in any order. */
  ghost predicate IsDetection(disk: Disk, sources: Sources, changes: seq<SourceChange>) {
    && Distinct(changes)
    && forall c :: c in changes <==>
      (c.file in disk || c.file in sources) && c.status == StatusOf(disk, sources, c.file)
  }

  /** What each status says of a file. */
  lemma DetectionByStatus(disk: Disk, sources: Sources, changes: seq<SourceChange>, f: File)
    requires IsDetection(disk, sources, changes)
    ensures SourceChange(f, New) in changes <==> f in disk && f !in sources
    ensures SourceChange(f, Changed) in changes <==> f in disk && f in sources && disk[f] != sources[f].hash
    ensures SourceChange(f, Unchanged) in changes <==> f in disk && f in sources && disk[f] == sources[f].hash
    ensures SourceChange(f, Deleted) in changes <==> f !in disk && f in sources
    ensures forall i, j :: 0 <= i < j < |changes| ==> changes[i].file != changes[j].file
  {}

  method DetectChanges(disk: Disk, prevState: WikiState) returns (changes: seq<SourceChange>)
    ensures IsDetection(disk, prevState.sources, changes)
  {
    changes := [];
    var currentFiles := disk.Keys;
    while currentFiles != {}
      invariant currentFiles <= disk.Keys && Distinct(changes)
      invariant forall c :: c in changes <==>
        c.file in disk.Keys - currentFiles && c.status == StatusOf(disk, prevState.sources, c.file)
    {
      var file :| file in currentFiles;
      changes := changes + [SourceChange(file, Classify(disk, prevState.sources, file))];
      currentFiles := currentFiles - {file};
    }
    var deletedFiles := FindDeletedFiles(disk, prevState);
    changes := changes + deletedFiles;
  }

  method FindDeletedFiles(disk: Disk, prevState: WikiState) returns (deleted: seq<SourceChange>)
    ensures Distinct(deleted)
    ensures forall c :: c in deleted <==> c.status == Deleted && c.file in prevState.sources && c.file !in disk
  {
    deleted := [];
    var known := prevState.sources.Keys;
    while known != {}
      invariant known <= prevState.sources.Keys && Distinct(deleted)
      invariant forall c :: c in deleted <==>
        c.status == Deleted && c.file in prevState.sources && c.file !in disk && c.file !in known
    {
      var file :| file in known;
      if file !in disk {
        deleted := deleted + [SourceChange(file, Deleted)];
      }
      known := known - {file};
    }
  }
}
