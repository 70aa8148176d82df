/**
  The conflict-resolving mover over an abstract file system: a map from path
  to a file (its bytes) or a directory. Failures of the real system calls are
  supplied by a `Faults` record that plays the part of the operating system.
*/
module Mover {
  import opened Wrappers
  import opened Paths

  type byte = bv8

  datatype Node = File(content: seq<byte>) | Directory

  type FileSystem = map<Path, Node>

  function Lookup(fs: FileSystem, p: Path): Option<Node> {
    if p in fs then Some(fs[p]) else None
  }

  /** How the atomic rename answers: success, the cross-device error, or another error. */
  datatype RenameFault = RenameSucceeds | CrossDevice | RenameFails

  /**
    Which step of the cross-device copy fails, if any. A failed content copy
    has written some number of bytes, and the removal of the partial
    destination that follows may fail in turn (its error is ignored).
  */
  datatype CopyFault =
    | CopySucceeds
    | OpenSourceFails
    | CreateFails
    | ContentCopyFails(written: nat, rollbackFails: bool)
    | SyncFails

  /** The first `n` bytes of `content`, or all of it when it is shorter. */
  function Written(content: seq<byte>, n: nat): (r: seq<byte>)
    ensures |r| <= |content| && r == content[..|r|]
    ensures n <= |content| ==> |r| == n
  {
    if n <= |content| then content[..n] else content
  }

  /**
    The operating system's answers for one move: whether stat of the source
    fails with an error other than "does not exist", whether creating the
    destination directory fails, how rename and the copy steps go, whether the
    final removal of the source fails, and the clock's formatted timestamp.
  */
  datatype Faults = Faults(
    sourceStatFails: bool,
    mkdirFails: bool,
    rename: RenameFault,
    copy: CopyFault,
    removeSourceFails: bool,
    timestamp: string)

  datatype MoveError =
    | StatSource
    | CreateDestDir
    | UnknownStrategy(strategy: string)
    | RenameError
    | OpenSource
    | CreateDest
    | CopyContent
    | SyncDest

  /**
    What a call to MoveFile ends in. Every outcome except Failed is a nil
    error in the source; Moved with `sourceRemoved` false is the logged
    warning after a copy whose source could not be removed.
  */
  datatype MoveOutcome =
    | SourceVanished
    | SourceIsDirectory
    | Moved(dest: Path, sourceRemoved: bool)
    | Failed(error: MoveError)

  const MaxCounter: nat := 1000

  // ---------------------------------------------------------------------------
  // Specifications of the individual system calls

  /** os.MkdirAll: nothing to do for an existing directory, an error over a file. */
  function MkdirAllSpec(fs: FileSystem, dir: Path, fails: bool): (r: (FileSystem, bool))
    ensures r.1 ==> dir in r.0 && r.0[dir] == Directory
    ensures r.1 ==> forall p :: p != dir ==> Lookup(r.0, p) == Lookup(fs, p)
    ensures !r.1 ==> r.0 == fs
    ensures dir in fs ==> r.0 == fs
  {
    if dir in fs && fs[dir] == Directory then (fs, true)
    else if dir in fs || fails then (fs, false)
    else (fs[dir := Directory], true)
  }

  /**
    os.Rename's answer: renaming a path onto itself succeeds and does nothing;
    renaming onto an existing directory is refused before the system call is
    made, so it fails whatever the device; otherwise the given answer.
  */
  function RenameOutcome(fs: FileSystem, src: Path, dst: Path, fault: RenameFault): (r: RenameFault)
    ensures src == dst ==> r == RenameSucceeds
    ensures src != dst && dst in fs && fs[dst] == Directory ==> r == RenameFails
    ensures r == CrossDevice ==> src != dst && (dst !in fs || fs[dst] != Directory)
    ensures r == RenameSucceeds ==> src == dst || dst !in fs || fs[dst] != Directory
  {
    if src == dst then RenameSucceeds
    else if dst in fs && fs[dst] == Directory then RenameFails
    else fault
  }

  /** A successful rename: the node moves from `src` to `dst`, replacing what was there. */
  function RenameSpec(fs: FileSystem, src: Path, dst: Path): (r: FileSystem)
    requires src in fs
    ensures dst in r && r[dst] == fs[src]
    ensures src != dst ==> src !in r
    ensures forall p :: p != src && p != dst ==> Lookup(r, p) == Lookup(fs, p)
  {
    (fs - {src})[dst := fs[src]]
  }

  /**
    copyFile: open the source, create (truncate) the destination, copy the
    bytes, sync. A failed copy removes the destination, and when that removal
    fails too the partial copy stays; a failed sync leaves the full copy in
    place. The bytes copied are those the source holds once
    the destination has been created.
  */
  function CopySpec(fs: FileSystem, src: Path, dst: Path, fault: CopyFault): (r: (FileSystem, Option<MoveError>))
    requires src in fs && fs[src].File?
    ensures forall p :: p != dst ==> Lookup(r.0, p) == Lookup(fs, p)
    ensures r.1 == Some(OpenSource) || r.1 == Some(CreateDest) ==> r.0 == fs
    ensures (r.1.None? || r.1 == Some(SyncDest)) && src != dst ==> dst in r.0 && r.0[dst] == fs[src]
  {
    if fault == OpenSourceFails then (fs, Some(OpenSource))
    else if fault == CreateFails || (dst in fs && fs[dst] == Directory) then (fs, Some(CreateDest))
    else
      var created := fs[dst := File([])];
      if fault.ContentCopyFails? then
        var partial := created[dst := File(Written(created[src].content, fault.written))];
        (if fault.rollbackFails then partial else partial - {dst}, Some(CopyContent))
      else
        var copied := created[dst := File(created[src].content)];
        if fault == SyncFails then (copied, Some(SyncDest)) else (copied, None)
  }

  // ---------------------------------------------------------------------------
  // Unique names

  /** `<dir>/<stem>_<k><ext>`. */
  function CounterPath(dir: Path, stem: string, ext: string, k: nat): Path {
    Join(dir, stem + "_" + Decimal(k) + ext)
  }

  /** `<dir>/<stem>_<timestamp><ext>`. */
  function StampPath(dir: Path, stem: string, ext: string, timestamp: string): Path {
    Join(dir, stem + "_" + timestamp + ext)
  }

  /** The smallest counter from `k` up to MaxCounter whose path is free. */
  function FirstFree(fs: FileSystem, dir: Path, stem: string, ext: string, k: nat): (r: Option<nat>)
    requires 1 <= k
    ensures r.Some? ==> k <= r.value <= MaxCounter && CounterPath(dir, stem, ext, r.value) !in fs
    ensures r.Some? ==> forall j :: k <= j < r.value ==> CounterPath(dir, stem, ext, j) in fs
    ensures r.None? <==> forall j :: k <= j <= MaxCounter ==> CounterPath(dir, stem, ext, j) in fs
    decreases MaxCounter + 1 - k
  {
    if k > MaxCounter then None
    else if CounterPath(dir, stem, ext, k) !in fs then Some(k)
    else FirstFree(fs, dir, stem, ext, k + 1)
  }

  /** The directory, the name without its extension, and the extension of a path. */
  datatype NameParts = NameParts(dir: Path, stem: string, ext: string)

  function Split(destPath: Path): (n: NameParts)
    ensures n.ext == [] || n.ext[0] == '.'
    ensures n.stem + n.ext == Base(destPath)
  {
    var ext := Ext(destPath);
    NameParts(Dir(destPath), TrimSuffix(Base(destPath), ext), ext)
  }

  /** The first free counter path for these parts, or the timestamp path when all are taken. */
  function UniqueFor(fs: FileSystem, n: NameParts, timestamp: string): (r: Path)
    ensures r !in fs || r == StampPath(n.dir, n.stem, n.ext, timestamp)
  {
    match FirstFree(fs, n.dir, n.stem, n.ext, 1)
    case Some(k) => CounterPath(n.dir, n.stem, n.ext, k)
    case None => StampPath(n.dir, n.stem, n.ext, timestamp)
  }

  /** The name generateUniqueName settles on for `destPath`. */
  function UniqueName(fs: FileSystem, destPath: Path, timestamp: string): (r: Path)
    ensures var n := Split(destPath); r !in fs || r == StampPath(n.dir, n.stem, n.ext, timestamp)
  {
    UniqueFor(fs, Split(destPath), timestamp)
  }

  /**
    handleConflict, given the name generateUniqueName would produce:
    overwrite keeps the path, rename takes the unique name, anything else
    (skip included) is an error.
  */
  function HandleConflict(destPath: Path, strategy: string, unique: Path): (r: Result<Path, MoveError>)
    ensures r.Ok? <==> strategy == "overwrite" || strategy == "rename"
    ensures r.Err? ==> r.error == UnknownStrategy(strategy)
    ensures r.Ok? ==> r.value == (if strategy == "rename" then unique else destPath)
  {
    if strategy == "overwrite" then Ok(destPath)
    else if strategy == "rename" then Ok(unique)
    else Err(UnknownStrategy(strategy))
  }

  // ---------------------------------------------------------------------------
  // The whole move

  /** The relocation step once the effective destination is known. */
  function RelocateSpec(fs: FileSystem, src: Path, dest: Path, f: Faults): (r: (FileSystem, MoveOutcome))
    requires src in fs && fs[src].File?
    ensures r.1.Moved? || r.1.Failed?
    ensures r.1.Moved? ==> r.1.dest == dest && dest in r.0 && r.0[dest] == fs[src]
    ensures r.1.Moved? && src != dest ==> (src in r.0 <==> !r.1.sourceRemoved)
  {
    match RenameOutcome(fs, src, dest, f.rename)
    case RenameSucceeds => (RenameSpec(fs, src, dest), Moved(dest, true))
    case RenameFails => (fs, Failed(RenameError))
    case CrossDevice =>
      var (copied, err) := CopySpec(fs, src, dest, f.copy);
      if err.Some? then (copied, Failed(err.value))
      else if f.removeSourceFails then (copied, Moved(dest, false))
      else (copied - {src}, Moved(dest, true))
  }

  /** The effective destination: the joined path, or the conflict strategy's answer when it is taken. */
  function Target(fs: FileSystem, dest: Path, strategy: string, timestamp: string): (r: Result<Path, MoveError>)
    ensures r.Ok? <==> dest !in fs || strategy == "overwrite" || strategy == "rename"
    ensures r.Err? ==> r.error == UnknownStrategy(strategy)
    ensures r.Ok? && (dest !in fs || strategy == "overwrite") ==> r.value == dest
    ensures r.Ok? && dest in fs && strategy == "rename" ==> r.value == UniqueName(fs, dest, timestamp)
  {
    if dest in fs then HandleConflict(dest, strategy, UniqueName(fs, dest, timestamp)) else Ok(dest)
  }

  /** MoveFile: the resulting file system and outcome. */
  function MoveSpec(fs: FileSystem, src: Path, destDir: Path, strategy: string, f: Faults): (r: (FileSystem, MoveOutcome))
    ensures r.1 == SourceVanished <==> src !in fs
    ensures r.1 == SourceIsDirectory <==> src in fs && !f.sourceStatFails && fs[src] == Directory
    ensures r.1.Moved? ==> r.1.dest in r.0 && r.0[r.1.dest] == fs[src]
  {
    if src !in fs then (fs, SourceVanished)
    else if f.sourceStatFails then (fs, Failed(StatSource))
    else if fs[src] == Directory then (fs, SourceIsDirectory)
    else
      var (fs1, ok) := MkdirAllSpec(fs, destDir, f.mkdirFails);
      if !ok then (fs1, Failed(CreateDestDir))
      else
        assert src in fs1 && fs1[src] == fs[src] by {
          assert Lookup(fs1, src) == Lookup(fs, src);
        }
        match Target(fs1, Join(destDir, Base(src)), strategy, f.timestamp)
        case Err(e) => (fs1, Failed(e))
        case Ok(dest) => RelocateSpec(fs1, src, dest, f)
  }

  // ---------------------------------------------------------------------------
  // The file system as mutable state, and the imperative operations

  class Disk {
    var entries: FileSystem

    constructor (fs: FileSystem)
      ensures entries == fs
    {
      entries := fs;
    }

    method MkdirAll(dir: Path, fails: bool) returns (ok: bool)
      modifies this
      ensures (entries, ok) == MkdirAllSpec(old(entries), dir, fails)
    {
      if dir in entries && entries[dir] == Directory {
        return true;
      }
      if dir in entries || fails {
        return false;
      }
      entries := entries[dir := Directory];
      ok := true;
    }

    method Rename(src: Path, dst: Path, fault: RenameFault) returns (r: RenameFault)
      requires src in entries
      modifies this
      ensures r == RenameOutcome(old(entries), src, dst, fault)
      ensures entries == if r == RenameSucceeds then RenameSpec(old(entries), src, dst) else old(entries)
    {
      r := RenameOutcome(entries, src, dst, fault);
      if r == RenameSucceeds {
        var node := entries[src];
        entries := entries - {src};
        entries := entries[dst := node];
      }
    }

    method Remove(p: Path, fails: bool) returns (ok: bool)
      modifies this
      ensures ok == !fails
      ensures entries == if ok then old(entries) - {p} else old(entries)
    {
      if fails {
        return false;
      }
      entries := entries - {p};
      ok := true;
    }

    method CopyFile(src: Path, dst: Path, fault: CopyFault) returns (err: Option<MoveError>)
      requires src in entries && entries[src].File?
      modifies this
      ensures (entries, err) == CopySpec(old(entries), src, dst, fault)
    {
      if fault == OpenSourceFails {
        return Some(OpenSource);
      }
      if fault == CreateFails || (dst in entries && entries[dst] == Directory) {
        return Some(CreateDest);
      }
      entries := entries[dst := File([])];
      var content := entries[src].content;
      if fault.ContentCopyFails? {
        entries := entries[dst := File(Written(content, fault.written))];
        if !fault.rollbackFails {
          entries := entries - {dst};
        }
        return Some(CopyContent);
      }
      entries := entries[dst := File(content)];
      if fault == SyncFails {
        return Some(SyncDest);
      }
      err := None;
    }

    /** generateUniqueName: tries counters 1 to MaxCounter, then falls back to the timestamp. */
    method GenerateUniqueName(destPath: Path, timestamp: string) returns (p: Path)
      ensures p == UniqueName(entries, destPath, timestamp)
    {
      var fs := entries;
      var parts := Split(destPath);
      var dir, stem, ext := parts.dir, parts.stem, parts.ext;
      var counter := 1;
      while true
        invariant 1 <= counter <= MaxCounter
        invariant FirstFree(fs, dir, stem, ext, 1) == FirstFree(fs, dir, stem, ext, counter)
        decreases MaxCounter - counter
      {
        var candidate := CounterPath(dir, stem, ext, counter);
        if candidate !in fs {
          return candidate;
        }
        counter := counter + 1;
        if counter > MaxCounter {
          return StampPath(dir, stem, ext, timestamp);
        }
      }
    }
  }

  /** MoveFile: stat, create the destination directory, resolve a conflict, rename or copy. */
  method MoveFile(disk: Disk, src: Path, destDir: Path, strategy: string, f: Faults) returns (outcome: MoveOutcome)
    modifies disk
    ensures (disk.entries, outcome) == MoveSpec(old(disk.entries), src, destDir, strategy, f)
  {
    if src !in disk.entries {
      return SourceVanished;
    }
    if f.sourceStatFails {
      return Failed(StatSource);
    }
    if disk.entries[src] == Directory {
      return SourceIsDirectory;
    }
    ghost var fs0 := disk.entries;
    var dest := Join(destDir, Base(src));
    var ok := disk.MkdirAll(destDir, f.mkdirFails);
    if !ok {
      return Failed(CreateDestDir);
    }
    ghost var fs1 := disk.entries;
    assert MkdirAllSpec(fs0, destDir, f.mkdirFails) == (fs1, true);
    assert src in fs1 && fs1[src] == fs0[src];
    if dest in disk.entries {
      var unique := "";
      if strategy == "rename" {
        unique := disk.GenerateUniqueName(dest, f.timestamp);
      }
      var resolved := HandleConflict(dest, strategy, unique);
      if resolved.Err? {
        return Failed(resolved.error);
      }
      dest := resolved.value;
    }
    assert Target(fs1, Join(destDir, Base(src)), strategy, f.timestamp) == Ok(dest);
    outcome := Relocate(disk, src, dest, f);
    assert (disk.entries, outcome) == RelocateSpec(fs1, src, dest, f);
  }

  /** The rename, or on a cross-device error the copy followed by removal of the source. */
  method Relocate(disk: Disk, src: Path, dest: Path, f: Faults) returns (outcome: MoveOutcome)
    requires src in disk.entries && disk.entries[src].File?
    modifies disk
    ensures (disk.entries, outcome) == RelocateSpec(old(disk.entries), src, dest, f)
  {
    var r := disk.Rename(src, dest, f.rename);
    if r == RenameSucceeds {
      return Moved(dest, true);
    }
    if r == RenameFails {
      return Failed(RenameError);
    }
    var err := disk.CopyFile(src, dest, f.copy);
    if err.Some? {
      return Failed(err.value);
    }
    var removed := disk.Remove(src, f.removeSourceFails);
    outcome := Moved(dest, removed);
  }

  // ---------------------------------------------------------------------------
  // Properties of the move

  /** A vanished source is a successful no-op; another stat error or a directory changes nothing. */
  lemma EarlyExitsChangeNothing(fs: FileSystem, src: Path, destDir: Path, strategy: string, f: Faults)
    ensures src !in fs ==> MoveSpec(fs, src, destDir, strategy, f) == (fs, SourceVanished)
    ensures src in fs && f.sourceStatFails ==> MoveSpec(fs, src, destDir, strategy, f) == (fs, Failed(StatSource))
    ensures src in fs && !f.sourceStatFails && fs[src] == Directory ==>
      MoveSpec(fs, src, destDir, strategy, f) == (fs, SourceIsDirectory)
  {
  }

  lemma RelocateFailureKeepsSource(fs: FileSystem, src: Path, dest: Path, f: Faults)
    requires src in fs && fs[src].File? && RelocateSpec(fs, src, dest, f).1.Failed?
    ensures src in RelocateSpec(fs, src, dest, f).0 && RelocateSpec(fs, src, dest, f).0[src] == fs[src]
  {
    if RenameOutcome(fs, src, dest, f.rename) == CrossDevice {
      assert src != dest;
    }
  }

  /** Whatever fails, the source file is still there with its content. */
  lemma FailureKeepsSource(fs: FileSystem, src: Path, destDir: Path, strategy: string, f: Faults)
    requires src in fs && MoveSpec(fs, src, destDir, strategy, f).1.Failed?
    ensures src in MoveSpec(fs, src, destDir, strategy, f).0
    ensures MoveSpec(fs, src, destDir, strategy, f).0[src] == fs[src]
  {
    if !f.sourceStatFails && fs[src].File? {
      var (fs1, ok) := MkdirAllSpec(fs, destDir, f.mkdirFails);
      if ok {
        var target := Target(fs1, Join(destDir, Base(src)), strategy, f.timestamp);
        if target.Ok? {
          assert MoveSpec(fs, src, destDir, strategy, f) == RelocateSpec(fs1, src, target.value, f);
          RelocateFailureKeepsSource(fs1, src, target.value, f);
        }
      }
    }
  }

  lemma RelocateEarlyFailureFrame(fs: FileSystem, src: Path, dest: Path, f: Faults)
    requires src in fs && fs[src].File? && RelocateSpec(fs, src, dest, f).1.Failed?
    requires RelocateSpec(fs, src, dest, f).1.error !in {CopyContent, SyncDest}
    ensures RelocateSpec(fs, src, dest, f).0 == fs
  {
  }

  /**
    A failure before any byte is copied leaves every path other than the
    destination directory as it was; the directory itself may have been created.
  */
  lemma EarlyFailureFrame(fs: FileSystem, src: Path, destDir: Path, strategy: string, f: Faults)
    requires MoveSpec(fs, src, destDir, strategy, f).1.Failed?
    requires MoveSpec(fs, src, destDir, strategy, f).1.error !in {CopyContent, SyncDest}
    ensures forall p :: p != destDir ==> Lookup(MoveSpec(fs, src, destDir, strategy, f).0, p) == Lookup(fs, p)
  {
    if src in fs && !f.sourceStatFails && fs[src].File? {
      var (fs1, ok) := MkdirAllSpec(fs, destDir, f.mkdirFails);
      if ok {
        var target := Target(fs1, Join(destDir, Base(src)), strategy, f.timestamp);
        if target.Ok? {
          assert MoveSpec(fs, src, destDir, strategy, f) == RelocateSpec(fs1, src, target.value, f);
          RelocateEarlyFailureFrame(fs1, src, target.value, f);
        }
      }
    }
  }

  /**
    With no entry at `destDir/base(src)` and a successful rename, that path
    holds the source's content, the source is gone, and nothing else changes
    except that the destination directory exists.
  */
  lemma PlainMove(fs: FileSystem, src: Path, destDir: Path, strategy: string, f: Faults)
    requires src in fs && fs[src].File? && !f.sourceStatFails
    requires destDir in fs ==> fs[destDir] == Directory
    requires destDir !in fs ==> !f.mkdirFails
    requires Join(destDir, Base(src)) !in fs && Join(destDir, Base(src)) != destDir
    requires f.rename == RenameSucceeds
    ensures var (fs', outcome) := MoveSpec(fs, src, destDir, strategy, f);
      var dest := Join(destDir, Base(src));
      outcome == Moved(dest, true) && dest in fs' && fs'[dest] == fs[src] && src !in fs' &&
      destDir in fs' && fs'[destDir] == Directory &&
      forall p :: p != src && p != dest && p != destDir ==> Lookup(fs', p) == Lookup(fs, p)
  {
    var (fs1, ok) := MkdirAllSpec(fs, destDir, f.mkdirFails);
    assert Lookup(fs1, Join(destDir, Base(src))) == None;
  }

  /**
    The cross-device fallback, with no name conflict: a full copy then removal
    of the source; a failed removal still reports success and leaves both
    copies; a failed content copy keeps the source and removes the destination,
    or leaves the bytes written so far there when that removal fails too;
    a failed sync keeps both; any other rename error moves nothing.
  */
  lemma CrossDeviceMove(fs: FileSystem, src: Path, destDir: Path, strategy: string, f: Faults)
    requires src in fs && fs[src].File? && !f.sourceStatFails
    requires destDir in fs ==> fs[destDir] == Directory
    requires destDir !in fs ==> !f.mkdirFails
    requires Join(destDir, Base(src)) !in fs && Join(destDir, Base(src)) != destDir
    ensures var (fs', outcome) := MoveSpec(fs, src, destDir, strategy, f);
      var dest := Join(destDir, Base(src));
      (f.rename == CrossDevice && f.copy == CopySucceeds ==>
        outcome == Moved(dest, !f.removeSourceFails) && dest in fs' && fs'[dest] == fs[src] &&
        (src in fs' <==> f.removeSourceFails)) &&
      (f.rename == CrossDevice && f.copy.ContentCopyFails? ==>
        outcome == Failed(CopyContent) && src in fs' && fs'[src] == fs[src] &&
        (dest in fs' <==> f.copy.rollbackFails) &&
        (dest in fs' ==> fs'[dest] == File(Written(fs[src].content, f.copy.written)))) &&
      (f.rename == CrossDevice && f.copy == SyncFails ==>
        outcome == Failed(SyncDest) && dest in fs' && fs'[dest] == fs[src] && src in fs' && fs'[src] == fs[src]) &&
      (f.rename == RenameFails ==>
        outcome == Failed(RenameError) && forall p :: p != destDir ==> Lookup(fs', p) == Lookup(fs, p))
  {
    var (fs1, ok) := MkdirAllSpec(fs, destDir, f.mkdirFails);
    var dest := Join(destDir, Base(src));
    assert dest !in fs1 && dest != src;
    assert MoveSpec(fs, src, destDir, strategy, f) == RelocateSpec(fs1, src, dest, f);
    CrossDeviceRelocate(fs1, src, dest, f);
  }

  /** The relocation step of CrossDeviceMove, onto a free destination. */
  lemma CrossDeviceRelocate(fs: FileSystem, src: Path, dest: Path, f: Faults)
    requires src in fs && fs[src].File? && dest !in fs && dest != src
    ensures var (fs', outcome) := RelocateSpec(fs, src, dest, f);
      (f.rename == CrossDevice && f.copy == CopySucceeds ==>
        outcome == Moved(dest, !f.removeSourceFails) && dest in fs' && fs'[dest] == fs[src] &&
        (src in fs' <==> f.removeSourceFails)) &&
      (f.rename == CrossDevice && f.copy.ContentCopyFails? ==>
        outcome == Failed(CopyContent) && src in fs' && fs'[src] == fs[src] &&
        (dest in fs' <==> f.copy.rollbackFails) &&
        (dest in fs' ==> fs'[dest] == File(Written(fs[src].content, f.copy.written)))) &&
      (f.rename == CrossDevice && f.copy == SyncFails ==>
        outcome == Failed(SyncDest) && dest in fs' && fs'[dest] == fs[src] && src in fs' && fs'[src] == fs[src]) &&
      (f.rename == RenameFails ==> outcome == Failed(RenameError) && fs' == fs)
  {
    assert RenameOutcome(fs, src, dest, f.rename) == f.rename;
  }

  /**
    Under overwrite, a cross-device copy whose content step fails destroys the
    file that was already at the destination: it was truncated when the copy
    created the destination, and the partial copy is then deleted, or, when
    that removal fails, left holding the first bytes of the source.
  */
  lemma OverwriteCopyFailureLosesOldDestination(fs: FileSystem, src: Path, destDir: Path, f: Faults)
    requires src in fs && fs[src].File? && !f.sourceStatFails
    requires destDir in fs && fs[destDir] == Directory
    requires Join(destDir, Base(src)) in fs && fs[Join(destDir, Base(src))].File?
    requires Join(destDir, Base(src)) != src
    requires f.rename == CrossDevice && f.copy.ContentCopyFails?
    ensures var (fs', outcome) := MoveSpec(fs, src, destDir, "overwrite", f);
      var dest := Join(destDir, Base(src));
      outcome == Failed(CopyContent) &&
      if f.copy.rollbackFails then dest in fs' && fs'[dest] == File(Written(fs[src].content, f.copy.written))
      else dest !in fs'
  {
    var dest := Join(destDir, Base(src));
    assert MkdirAllSpec(fs, destDir, f.mkdirFails) == (fs, true);
    assert Target(fs, dest, "overwrite", f.timestamp) == Ok(dest);
    assert MoveSpec(fs, src, destDir, "overwrite", f) == RelocateSpec(fs, src, dest, f);
    OverwriteCopyFailureStep(fs, src, dest, f);
  }

  lemma OverwriteCopyFailureStep(fs: FileSystem, src: Path, dest: Path, f: Faults)
    requires src in fs && fs[src].File? && dest in fs && fs[dest].File? && dest != src
    requires f.rename == CrossDevice && f.copy.ContentCopyFails?
    ensures var partial := fs[dest := File(Written(fs[src].content, f.copy.written))];
      RelocateSpec(fs, src, dest, f) == (if f.copy.rollbackFails then partial else fs - {dest}, Failed(CopyContent))
  {
    assert RenameOutcome(fs, src, dest, f.rename) == CrossDevice;
    var created := fs[dest := File([])];
    assert created[src] == fs[src];
    assert created[dest := File(Written(fs[src].content, f.copy.written))] ==
      fs[dest := File(Written(fs[src].content, f.copy.written))];
    assert fs[dest := File(Written(fs[src].content, f.copy.written))] - {dest} == fs - {dest};
  }

  /** The counter search: the smallest free `_<k>` path for k in 1..MaxCounter. */
  lemma UniqueNameSmallestFree(fs: FileSystem, n: NameParts, timestamp: string, k: nat)
    requires 1 <= k <= MaxCounter
    requires CounterPath(n.dir, n.stem, n.ext, k) !in fs
    ensures exists m :: (1 <= m <= k && UniqueFor(fs, n, timestamp) == CounterPath(n.dir, n.stem, n.ext, m) &&
        CounterPath(n.dir, n.stem, n.ext, m) !in fs &&
        forall j :: 1 <= j < m ==> CounterPath(n.dir, n.stem, n.ext, j) in fs)
  {
    var m := FirstFree(fs, n.dir, n.stem, n.ext, 1).value;
    assert UniqueFor(fs, n, timestamp) == CounterPath(n.dir, n.stem, n.ext, m);
  }

  /** With every counter path taken, the timestamp name is used without a further check. */
  lemma UniqueNameFallback(fs: FileSystem, n: NameParts, timestamp: string)
    requires forall j :: 1 <= j <= MaxCounter ==> CounterPath(n.dir, n.stem, n.ext, j) in fs
    ensures UniqueFor(fs, n, timestamp) == StampPath(n.dir, n.stem, n.ext, timestamp)
  {
  }

  /** The relocation step touches only the source and the destination. */
  lemma RelocateFrame(fs: FileSystem, src: Path, dest: Path, f: Faults)
    requires src in fs && fs[src].File?
    ensures forall p :: p != src && p != dest ==> Lookup(RelocateSpec(fs, src, dest, f).0, p) == Lookup(fs, p)
  {
  }

  /**
    The timestamp fallback never names the path it was derived from: its last
    element is longer by the separator and the timestamp.
  */
  lemma StampPathDiffers(destPath: Path, timestamp: string)
    requires destPath != [] && destPath[|destPath| - 1] != '/'
    requires '/' !in timestamp
    ensures var n := Split(destPath); StampPath(n.dir, n.stem, n.ext, timestamp) != destPath
  {
    var n := Split(destPath);
    var b := Base(destPath);
    assert b == AfterLastSlash(destPath);
    AfterLastSlashHasNoSlash(destPath);
    assert HasSuffix(b, n.ext);
    assert n.stem + n.ext == b;
    var name := n.stem + "_" + timestamp + n.ext;
    SlashFreeName(b, n.stem, timestamp, n.ext);
    BaseOfJoin(n.dir, name);
    assert |name| != |b|;
  }

  /** A name assembled from the parts of a slash-free name and a slash-free timestamp is slash-free. */
  lemma SlashFreeName(b: string, stem: string, timestamp: string, ext: string)
    requires stem + ext == b && '/' !in b && '/' !in timestamp
    ensures '/' !in stem + "_" + timestamp + ext
  {
    assert forall c :: c in stem ==> c in b;
    assert forall c :: c in ext ==> c in b;
  }

  /** generateUniqueName never returns the existing path it was given. */
  lemma UniqueNameDiffers(fs: FileSystem, destPath: Path, timestamp: string)
    requires destPath in fs
    requires destPath != [] && destPath[|destPath| - 1] != '/'
    requires '/' !in timestamp
    ensures UniqueName(fs, destPath, timestamp) != destPath
  {
    var n := Split(destPath);
    if FirstFree(fs, n.dir, n.stem, n.ext, 1).None? {
      StampPathDiffers(destPath, timestamp);
    }
  }

  lemma JoinEndsWithName(dir: Path, name: string)
    requires name != [] && '/' !in name
    ensures var j := Join(dir, name); j != [] && j[|j| - 1] != '/'
  {
    var j := Join(dir, name);
    assert j[|j| - 1] == name[|name| - 1];
  }

  lemma RenameStepKeepsExisting(fs: FileSystem, src: Path, dest0: Path, f: Faults)
    requires src in fs && fs[src].File? && dest0 in fs && dest0 != src
    requires dest0 != [] && dest0[|dest0| - 1] != '/' && '/' !in f.timestamp
    ensures var u := UniqueName(fs, dest0, f.timestamp);
      var (fs', outcome) := RelocateSpec(fs, src, u, f);
      u != dest0 && Lookup(fs', dest0) == Lookup(fs, dest0) && (outcome.Moved? ==> outcome.dest == u)
  {
    var u := UniqueName(fs, dest0, f.timestamp);
    UniqueNameDiffers(fs, dest0, f.timestamp);
    RelocateKeepsOther(fs, src, u, dest0, f);
  }

  /** Relocating to `dest` leaves any third path alone, and a move lands on `dest`. */
  lemma RelocateKeepsOther(fs: FileSystem, src: Path, dest: Path, other: Path, f: Faults)
    requires src in fs && fs[src].File? && other != src && other != dest
    ensures var (fs', outcome) := RelocateSpec(fs, src, dest, f);
      Lookup(fs', other) == Lookup(fs, other) && (outcome.Moved? ==> outcome.dest == dest)
  {
    RelocateFrame(fs, src, dest, f);
  }

  /**
    Under rename, a file already at `destDir/base(src)` is never modified,
    whatever the rename and copy steps do; a move lands on another path.
  */
  lemma RenameKeepsExistingDestination(fs: FileSystem, src: Path, destDir: Path, f: Faults)
    requires src in fs
    requires Join(destDir, Base(src)) in fs && Join(destDir, Base(src)) != src
    requires '/' !in Base(src) && '/' !in f.timestamp
    ensures Lookup(MoveSpec(fs, src, destDir, "rename", f).0, Join(destDir, Base(src))) == Lookup(fs, Join(destDir, Base(src)))
    ensures MoveSpec(fs, src, destDir, "rename", f).1.Moved? ==>
      MoveSpec(fs, src, destDir, "rename", f).1.dest != Join(destDir, Base(src))
  {
    var dest0 := Join(destDir, Base(src));
    JoinEndsWithName(destDir, Base(src));
    if !f.sourceStatFails && fs[src].File? {
      var r := MkdirAllSpec(fs, destDir, f.mkdirFails);
      if r.1 {
        AfterMkdirKeepsExisting(fs, r.0, src, destDir, dest0, f);
      }
    }
  }

  lemma AfterMkdirKeepsExisting(fs: FileSystem, fs1: FileSystem, src: Path, destDir: Path, dest0: Path, f: Faults)
    requires src in fs && fs[src].File? && !f.sourceStatFails
    requires dest0 == Join(destDir, Base(src))
    requires MkdirAllSpec(fs, destDir, f.mkdirFails) == (fs1, true)
    requires dest0 in fs && dest0 != src
    requires dest0 != [] && dest0[|dest0| - 1] != '/' && '/' !in f.timestamp
    ensures Lookup(MoveSpec(fs, src, destDir, "rename", f).0, dest0) == Lookup(fs, dest0)
    ensures MoveSpec(fs, src, destDir, "rename", f).1.Moved? ==> MoveSpec(fs, src, destDir, "rename", f).1.dest != dest0
  {
    assert Lookup(fs1, dest0) == Lookup(fs, dest0);
    RenameStepKeepsExisting(fs1, src, dest0, f);
    MoveSpecUnderRename(fs, fs1, src, destDir, dest0, f);
  }

  /** Once the directory exists and the destination is taken, a rename move relocates to the unique name. */
  lemma MoveSpecUnderRename(fs: FileSystem, fs1: FileSystem, src: Path, destDir: Path, dest0: Path, f: Faults)
    requires src in fs && fs[src].File? && !f.sourceStatFails
    requires dest0 == Join(destDir, Base(src))
    requires MkdirAllSpec(fs, destDir, f.mkdirFails) == (fs1, true)
    requires dest0 in fs1
    ensures MoveSpec(fs, src, destDir, "rename", f) == RelocateSpec(fs1, src, UniqueName(fs1, dest0, f.timestamp), f)
  {
    assert Target(fs1, dest0, "rename", f.timestamp) == Ok(UniqueName(fs1, dest0, f.timestamp));
  }

  lemma DirDocumentPdf()
    ensures AfterLastSlash("docs/document.pdf") == "document.pdf"
    ensures Dir("docs/document.pdf") == "docs"
  {
    AfterLastSlashAfterSeparator("docs", "document.pdf");
    DirOfChild("docs", "document.pdf");
    assert "docs" + "/" + "document.pdf" == "docs/document.pdf";
  }

  lemma SplitDocumentPdf(p: Path)
    requires p == "docs/document.pdf"
    ensures Split(p) == NameParts("docs", "document", ".pdf")
  {
    var dir: Path, stem: string, ext: string := "docs", "document", ".pdf";
    assert ExtOf(stem + ext) == ext by {
      ExtOfDocumentPdf();
      assert stem + ext == "document.pdf";
    }
    assert dir + "/" + (stem + ext) == p;
    SplitOfChild(dir, stem, ext);
  }

  /** A child `stem + ext` of a directory splits back into the directory, the stem and the extension. */
  lemma SplitOfChild(dir: Path, stem: string, ext: string)
    requires dir != [] && dir[|dir| - 1] != '/'
    requires stem + ext != [] && '/' !in stem + ext
    requires ExtOf(stem + ext) == ext
    ensures Split(dir + "/" + (stem + ext)) == NameParts(dir, stem, ext)
  {
    var name := stem + ext;
    var p := dir + "/" + name;
    AfterLastSlashAfterSeparator(dir, name);
    DirOfChild(dir, name);
    assert p[|p| - 1] == name[|name| - 1];
    assert Base(p) == name;
    assert Ext(p) == ext;
    assert HasSuffix(name, ext) && name[..|name| - |ext|] == stem;
  }

  lemma CounterPathDocumentPdf()
    ensures CounterPath("docs", "document", ".pdf", 1) == "docs/document_1.pdf"
  {
    CounterPathInDirectory("docs", "document", ".pdf", 1);
    assert Decimal(1) == "1";
  }

  lemma CounterPathInDirectory(dir: Path, stem: string, ext: string, k: nat)
    requires dir != [] && dir != "." && dir[|dir| - 1] != '/'
    ensures CounterPath(dir, stem, ext, k) == dir + "/" + (stem + "_" + Decimal(k) + ext)
  {
  }

  /** "document.pdf" next to an existing one becomes "document_1.pdf". */
  lemma UniqueNameExample(fs: FileSystem, dest: Path, timestamp: string)
    requires dest == "docs/document.pdf" && fs == map[dest := File([])]
    ensures UniqueName(fs, dest, timestamp) == "docs/document_1.pdf"
  {
    var dir: Path, stem: string, ext: string := "docs", "document", ".pdf";
    SplitDocumentPdf(dest);
    var c := CounterPath(dir, stem, ext, 1);
    assert c == "docs/document_1.pdf" by {
      CounterPathDocumentPdf();
    }
    assert c !in fs;
    assert FirstFree(fs, dir, stem, ext, 1) == Some(1);
  }

  lemma ExtOfDocumentPdf()
    ensures ExtOf("document.pdf") == ".pdf"
  {
    var stem: string := "document";
    var e0 := stem + ".";
    var e1 := e0 + ['p'];
    var e2 := e1 + ['d'];
    var e3 := e2 + ['f'];
    ExtOfAppendDot(stem);
    ExtOfAppendChar(e0, 'p');
    ExtOfAppendChar(e1, 'd');
    ExtOfAppendChar(e2, 'f');
    assert e3 == "document.pdf";
  }
}
