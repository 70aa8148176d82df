/**
  The directory watcher: the set of watched directories it builds, the filter
  chain each file-system event goes through, the temporary-file test and the
  bounded readiness check. Stat results, open outcomes, the directory walk and
  failures to add a watch are supplied as parameters.
*/
module Watcher {
  import opened Wrappers
  import opened Paths
  import opened Config

  /** fsnotify's event bitmask. */
  type Op = bv32

  const CreateOp: Op := 1
  const WriteOp: Op := 2
  const RemoveOp: Op := 4
  const RenameOp: Op := 8
  const ChmodOp: Op := 16

  predicate Has(op: Op, flag: Op) {
    op & flag == flag
  }

  datatype Event = Event(name: Path, op: Op)

  /** What os.Stat says about the event's path. */
  datatype StatResult = IsFile | IsDirectory | StatNotExist | StatFailed

  /** The filter chain's decision, before any readiness check. */
  datatype Verdict =
    | DropChmod
    | DropOtherOp
    | DropVanished
    | DropStatError     // logged as a warning
    | WatchDirectory
    | DropDirectory
    | DropHidden
    | DropTemporary
    | CheckReadiness

  const TempSuffixes: seq<string> := [".tmp", ".temp", ".crdownload", ".part", ".download", ".partial"]

  /** Some suffix of the list ends `s`. */
  function EndsWithAny(s: string, suffixes: seq<string>): (r: bool)
    ensures r <==> exists k :: 0 <= k < |suffixes| && HasSuffix(s, suffixes[k])
  {
    if suffixes == [] then false
    else HasSuffix(s, suffixes[0]) || EndsWithAny(s, suffixes[1..])
  }

  /** isTempFile: the lower-cased name ends with one of the temporary suffixes. */
  function IsTempFile(name: string): (r: bool)
    ensures r <==> exists k :: 0 <= k < |TempSuffixes| && HasSuffix(Lower(name), TempSuffixes[k])
  {
    EndsWithAny(Lower(name), TempSuffixes)
  }

  predicate IsHidden(name: string) {
    HasPrefix(name, ".")
  }

  /** handleEvent's filters, in their order. */
  function Admit(ev: Event, stat: StatResult, recursive: bool): (v: Verdict)
    ensures Has(ev.op, ChmodOp) ==> v == DropChmod
    ensures v == CheckReadiness <==>
      !Has(ev.op, ChmodOp) && (Has(ev.op, CreateOp) || Has(ev.op, WriteOp)) && stat == IsFile &&
      !IsHidden(Base(ev.name)) && !IsTempFile(Base(ev.name))
    ensures v == WatchDirectory <==>
      !Has(ev.op, ChmodOp) && Has(ev.op, CreateOp) && stat == IsDirectory && recursive
    ensures v == DropOtherOp <==> !Has(ev.op, ChmodOp) && !Has(ev.op, CreateOp) && !Has(ev.op, WriteOp)
    ensures v == DropVanished <==>
      !Has(ev.op, ChmodOp) && (Has(ev.op, CreateOp) || Has(ev.op, WriteOp)) && stat == StatNotExist
    ensures v == DropStatError <==>
      !Has(ev.op, ChmodOp) && (Has(ev.op, CreateOp) || Has(ev.op, WriteOp)) && stat == StatFailed
  {
    if Has(ev.op, ChmodOp) then DropChmod
    else if !Has(ev.op, CreateOp) && !Has(ev.op, WriteOp) then DropOtherOp
    else if stat == StatNotExist then DropVanished
    else if stat == StatFailed then DropStatError
    else if stat == IsDirectory then
      (if recursive && Has(ev.op, CreateOp) then WatchDirectory else DropDirectory)
    else if IsHidden(Base(ev.name)) then DropHidden
    else if IsTempFile(Base(ev.name)) then DropTemporary
    else
      assert stat == IsFile;
      assert Has(ev.op, CreateOp) || Has(ev.op, WriteOp);
      CheckReadiness
  }

  /** How one attempt to open the file for reading goes; `statOk` is the stat that follows a success. */
  datatype OpenOutcome = Opened(statOk: bool) | OpenNotExist | OpenPermission | OpenBusy

  const MaxRetries: nat := 3

  /** The readiness verdict from attempt `i` on: the first attempt that is not "busy" decides. */
  function ReadyFrom(attempt: nat -> OpenOutcome, i: nat): (r: bool)
    requires i <= MaxRetries
    ensures r ==> exists k :: i <= k < MaxRetries && attempt(k) == Opened(true)
    decreases MaxRetries - i
  {
    if i == MaxRetries then false
    else match attempt(i)
      case Opened(statOk) => statOk
      case OpenBusy => ReadyFrom(attempt, i + 1)
      case _ => false
  }

  /** Ready exactly when some attempt within the limit opens the file and stats it, every earlier one having found it busy. */
  lemma {:induction false} ReadyFromIff(attempt: nat -> OpenOutcome, i: nat)
    requires i <= MaxRetries
    ensures ReadyFrom(attempt, i) <==> (exists k :: (i <= k < MaxRetries && attempt(k) == Opened(true) &&
                                                    forall j :: i <= j < k ==> attempt(j) == OpenBusy))
    decreases MaxRetries - i
  {
    if i < MaxRetries {
      ReadyFromIff(attempt, i + 1);
      if attempt(i) == OpenBusy && ReadyFrom(attempt, i) {
        var k :| i + 1 <= k < MaxRetries && attempt(k) == Opened(true) &&
          forall j :: i + 1 <= j < k ==> attempt(j) == OpenBusy;
        assert forall j :: i <= j < k ==> attempt(j) == OpenBusy;
      }
      if exists k :: (i <= k < MaxRetries && attempt(k) == Opened(true) &&
                      forall j :: i <= j < k ==> attempt(j) == OpenBusy) {
        var k :| i <= k < MaxRetries && attempt(k) == Opened(true) &&
          forall j :: i <= j < k ==> attempt(j) == OpenBusy;
        if k > i {
          assert attempt(i) == OpenBusy;
        }
      }
    }
  }

  /**
    IsFileReady: up to MaxRetries attempts, sleeping between attempts only.
    A successful open decides at once (ready if the following stat works, a
    zero size included); "does not exist" and "permission denied" give up at
    once; any other error is retried.
  */
  method IsFileReady(attempt: nat -> OpenOutcome) returns (ready: bool, attempts: nat, sleeps: nat)
    ensures 1 <= attempts <= MaxRetries && sleeps == attempts - 1
    ensures forall j :: 0 <= j < attempts - 1 ==> attempt(j) == OpenBusy
    ensures attempts < MaxRetries ==> attempt(attempts - 1) != OpenBusy
    ensures ready <==> attempt(attempts - 1) == Opened(true)
    ensures ready == ReadyFrom(attempt, 0)
  {
    var i := 0;
    attempts, sleeps := 0, 0;
    while i < MaxRetries
      invariant 0 <= i <= MaxRetries && attempts == i
      invariant sleeps == if i == MaxRetries then i - 1 else i
      invariant forall j :: 0 <= j < i ==> attempt(j) == OpenBusy
      invariant ReadyFrom(attempt, 0) == ReadyFrom(attempt, i)
    {
      var outcome := attempt(i);
      attempts := attempts + 1;
      match outcome {
        case Opened(statOk) =>
          return statOk, attempts, sleeps;
        case OpenNotExist =>
          return false, attempts, sleeps;
        case OpenPermission =>
          return false, attempts, sleeps;
        case OpenBusy =>
      }
      if i < MaxRetries - 1 {
        sleeps := sleeps + 1;
      }
      i := i + 1;
    }
    ready := false;
  }

  /** One entry of filepath.Walk's traversal: a visited path, or a path it could not read. */
  datatype WalkEntry = Visit(path: Path, isDir: bool) | WalkError(path: Path)

  /** The walk callback adds this entry: a directory other than the root whose own name is not hidden. */
  predicate AddsOnWalk(e: WalkEntry, root: Path)
    ensures AddsOnWalk(e, root) ==> e.path != [] && e.path != root
  {
    e.Visit? && e.isDir && !IsHidden(Base(e.path)) && e.path != root
  }

  /** The watches the recursive walk adds, in walk order, leaving out those whose Add fails. */
  function WalkAdds(walk: seq<WalkEntry>, root: Path, addFails: set<Path>): (r: seq<Path>)
    ensures |r| <= |walk|
    ensures forall k :: 0 <= k < |r| ==> r[k] != root && r[k] !in addFails
  {
    if walk == [] then []
    else
      var e := walk[|walk| - 1];
      WalkAdds(walk[..|walk| - 1], root, addFails) +
        (if AddsOnWalk(e, root) && e.path !in addFails then [e.path] else [])
  }

  class FileWatcher {
    const recursive: bool
    /** The watch list: every path given to a successful fsnotify Add, in order. */
    var watched: seq<Path>

    constructor (m: Monitor)
      ensures recursive == m.recursive && watched == []
    {
      recursive := m.recursive;
      watched := [];
    }

    /**
      addPath: watch the root (an error if that fails); when recursive, walk the
      tree and watch every non-hidden directory except the root, skipping walk
      errors and directories whose Add fails. Hidden directories are not pruned.
    */
    method AddPath(root: Path, recursiveWalk: bool, walk: seq<WalkEntry>, addFails: set<Path>) returns (ok: bool)
      modifies this
      ensures ok == (root !in addFails)
      ensures watched == if !ok then old(watched)
        else old(watched) + [root] + (if recursiveWalk then WalkAdds(walk, root, addFails) else [])
    {
      if root in addFails {
        return false;
      }
      watched := watched + [root];
      ghost var base := watched;
      if recursiveWalk {
        var i := 0;
        while i < |walk|
          invariant 0 <= i <= |walk|
          invariant watched == WalkAddsOnto(base, walk[..i], root, addFails)
        {
          var e := walk[i];
          WalkOntoStep(base, walk, i, root, addFails);
          if AddsOnWalk(e, root) && e.path !in addFails {
            watched := watched + [e.path];
          }
          i := i + 1;
        }
        assert walk[..|walk|] == walk;
        WalkAddsOntoIsAppend(base, walk, root, addFails);
      }
      ok := true;
    }

    /**
      handleEvent: the filter chain, a new watch for a directory created under
      a recursive monitor, and the readiness check for a file that passes every
      filter. A ready file is only logged: no job is produced.
    */
    method HandleEvent(ev: Event, stat: StatResult, addFails: set<Path>, attempt: nat -> OpenOutcome)
      returns (v: Verdict, ready: Option<bool>)
      modifies this
      ensures v == Admit(ev, stat, recursive)
      ensures ready.Some? <==> v == CheckReadiness
      ensures ready.Some? ==> ready.value == ReadyFrom(attempt, 0)
      ensures watched == if v == WatchDirectory && ev.name !in addFails then old(watched) + [ev.name] else old(watched)
    {
      v := Admit(ev, stat, recursive);
      ready := None;
      if v == WatchDirectory && ev.name !in addFails {
        watched := watched + [ev.name];
      } else if v == CheckReadiness {
        var r, attempts, sleeps := IsFileReady(attempt);
        ready := Some(r);
      }
    }
  }

  /** The walk visits `p` as a directory. */
  ghost predicate VisitsDirectory(walk: seq<WalkEntry>, p: Path) {
    exists i :: 0 <= i < |walk| && walk[i] == Visit(p, true)
  }

  lemma VisitsDirectorySnoc(walk: seq<WalkEntry>, p: Path)
    requires walk != []
    ensures VisitsDirectory(walk, p) <==>
      VisitsDirectory(walk[..|walk| - 1], p) || walk[|walk| - 1] == Visit(p, true)
  {
    var init := walk[..|walk| - 1];
    if VisitsDirectory(walk, p) {
      var i :| 0 <= i < |walk| && walk[i] == Visit(p, true);
      if i < |walk| - 1 {
        assert init[i] == walk[i];
      }
    }
    if VisitsDirectory(init, p) {
      var i :| 0 <= i < |init| && init[i] == Visit(p, true);
      assert walk[i] == init[i];
    }
  }

  /** A path is watched by the walk exactly when some walk entry visits it as a non-hidden directory other than the root and its Add succeeds. */
  lemma {:induction false} WalkAddsMembers(walk: seq<WalkEntry>, root: Path, addFails: set<Path>, p: Path)
    ensures p in WalkAdds(walk, root, addFails) <==>
      VisitsDirectory(walk, p) && !IsHidden(Base(p)) && p != root && p !in addFails
  {
    if walk != [] {
      var init := walk[..|walk| - 1];
      var e := walk[|walk| - 1];
      WalkAddsMembers(init, root, addFails, p);
      VisitsDirectorySnoc(walk, p);
      var last := if AddsOnWalk(e, root) && e.path !in addFails then [e.path] else [];
      assert WalkAdds(walk, root, addFails) == WalkAdds(init, root, addFails) + last;
      assert p in last <==> e == Visit(p, true) && !IsHidden(Base(p)) && p != root && p !in addFails;
    }
  }

  /** The root, watched first, is never watched a second time by the walk. */
  lemma RootNotReadded(walk: seq<WalkEntry>, root: Path, addFails: set<Path>)
    ensures root !in WalkAdds(walk, root, addFails)
  {
    WalkAddsMembers(walk, root, addFails, root);
  }

  predicate DistinctPaths(walk: seq<WalkEntry>) {
    forall i, j :: 0 <= i < j < |walk| ==> walk[i].path != walk[j].path
  }

  predicate NoDuplicates(ps: seq<Path>) {
    forall i, j :: 0 <= i < j < |ps| ==> ps[i] != ps[j]
  }

  /** A walk that visits each path once gives each watch once. */
  lemma {:induction false} WalkAddsDistinct(walk: seq<WalkEntry>, root: Path, addFails: set<Path>)
    requires DistinctPaths(walk)
    ensures NoDuplicates(WalkAdds(walk, root, addFails))
  {
    if walk != [] {
      var init := walk[..|walk| - 1];
      var e := walk[|walk| - 1];
      assert DistinctPaths(init) by {
        forall i, j | 0 <= i < j < |init| ensures init[i].path != init[j].path {
          assert init[i] == walk[i] && init[j] == walk[j];
        }
      }
      WalkAddsDistinct(init, root, addFails);
      if AddsOnWalk(e, root) && e.path !in addFails {
        assert !VisitsDirectory(init, e.path) by {
          forall i | 0 <= i < |init| ensures init[i] != Visit(e.path, true) {
            assert init[i] == walk[i];
          }
        }
        WalkAddsMembers(init, root, addFails, e.path);
      }
    }
  }

  /** WalkAdds appended to the watch list `acc`, one walk entry at a time. */
  function WalkAddsOnto(acc: seq<Path>, walk: seq<WalkEntry>, root: Path, addFails: set<Path>): seq<Path> {
    if walk == [] then acc
    else
      var e := walk[|walk| - 1];
      var before := WalkAddsOnto(acc, walk[..|walk| - 1], root, addFails);
      if AddsOnWalk(e, root) && e.path !in addFails then before + [e.path] else before
  }

  lemma WalkOntoStep(acc: seq<Path>, walk: seq<WalkEntry>, i: nat, root: Path, addFails: set<Path>)
    requires i < |walk|
    ensures WalkAddsOnto(acc, walk[..i + 1], root, addFails) ==
      var before := WalkAddsOnto(acc, walk[..i], root, addFails);
      if AddsOnWalk(walk[i], root) && walk[i].path !in addFails then before + [walk[i].path] else before
  {
    assert walk[..i + 1][..i] == walk[..i];
  }

  lemma {:induction false} WalkAddsOntoIsAppend(acc: seq<Path>, walk: seq<WalkEntry>, root: Path, addFails: set<Path>)
    ensures WalkAddsOnto(acc, walk, root, addFails) == acc + WalkAdds(walk, root, addFails)
  {
    if walk != [] {
      WalkAddsOntoIsAppend(acc, walk[..|walk| - 1], root, addFails);
      var e := walk[|walk| - 1];
      if AddsOnWalk(e, root) && e.path !in addFails {
        assert acc + (WalkAdds(walk[..|walk| - 1], root, addFails) + [e.path]) ==
          acc + WalkAdds(walk[..|walk| - 1], root, addFails) + [e.path];
      }
    }
  }

  lemma WalkAddsSnoc(init: seq<WalkEntry>, e: WalkEntry, root: Path, addFails: set<Path>)
    ensures WalkAdds(init + [e], root, addFails) ==
      WalkAdds(init, root, addFails) + (if AddsOnWalk(e, root) && e.path !in addFails then [e.path] else [])
  {
    assert (init + [e])[..|init + [e]| - 1] == init;
  }

  lemma WalkRoot()
    ensures WalkAdds([Visit("r", true)], "r", {}) == []
  {
    WalkAddsSnoc([], Visit("r", true), "r", {});
    assert [] + [Visit("r", true)] == [Visit("r", true)];
  }

  lemma GitIsHidden()
    ensures !AddsOnWalk(Visit("r/.git", true), "r")
  {
    assert Base("r/.git") == ".git" by {
      BaseOfChild("r", ".git");
      assert "r" + "/" + ".git" == "r/.git";
    }
    var git: string := ".git";
    assert HasPrefix(git, ".");
  }

  lemma WalkRootGit()
    ensures WalkAdds([Visit("r", true), Visit("r/.git", true)], "r", {}) == []
  {
    WalkRoot();
    GitIsHidden();
    WalkAddsSnoc([Visit("r", true)], Visit("r/.git", true), "r", {});
    assert [Visit("r", true)] + [Visit("r/.git", true)] == [Visit("r", true), Visit("r/.git", true)];
  }

  lemma ObjectsIsWatchable(p: Path)
    requires p == "r/.git/objects"
    ensures AddsOnWalk(Visit(p, true), "r")
  {
    var dir: Path, name: string := "r/.git", "objects";
    assert !IsHidden(Base(p)) by {
      assert Base(p) == name by {
        BaseOfChild(dir, name);
        assert dir + "/" + name == p;
      }
      assert name[..1] != "." by {
        assert name[..1][0] == 'o';
      }
    }
    assert p != "r" by {
      assert |p| == 14;
    }
  }

  /** A hidden directory is not watched, but the walk still descends into it and watches what lies below. */
  lemma HiddenDirectoryNotPruned()
    ensures WalkAdds([Visit("r", true), Visit("r/.git", true), Visit("r/.git/objects", true)], "r", {}) == ["r/.git/objects"]
  {
    var w2 := [Visit("r", true), Visit("r/.git", true)];
    var e := Visit("r/.git/objects", true);
    WalkRootGit();
    ObjectsIsWatchable("r/.git/objects");
    WalkAddsSnoc(w2, e, "r", {});
    assert w2 + [e] == [Visit("r", true), Visit("r/.git", true), Visit("r/.git/objects", true)];
  }

  lemma LowerFilePart()
    ensures Lower("FILE.PART") == "file.part"
  {
  }

  /** Suffix matching ignores case: an upper-case partial-download name is temporary. */
  lemma UpperCasePartIsTemporary()
    ensures IsTempFile("FILE.PART")
  {
    LowerFilePart();
    assert HasSuffix(Lower("FILE.PART"), TempSuffixes[3]);
  }
}
