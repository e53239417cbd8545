/**
 Crash-safe replacement of a file (internal/fsutil/secure_file.go, `AtomicDataFile`, with
 `OpenDataDir` of secure_file_linux.go, `SyncChain` of secure_sync.go, and `SyncDirChain`
 and `DeepestExistingAncestor` of fsutil.go). Any system call may fail.
 */
module AtomicFile {
  import opened Bytes
  import opened CrashDisk

  // ---------------------------------------------------------------- the directory chain

  /** The directories from `dir` up to and including `root`, leaf first. */
  function Chain(root: Path, dir: Path): seq<Path>
    requires root <= dir
    decreases |dir| - |root|
  {
    if |dir| == |root| then [dir] else [dir] + Chain(root, dir[..|dir| - 1])
  }

  lemma {:induction false} ChainAt(root: Path, dir: Path, i: nat)
    requires root <= dir && i <= |dir| - |root|
    ensures |Chain(root, dir)| == |dir| - |root| + 1 && Chain(root, dir)[i] == dir[..|dir| - i]
    decreases |dir|
  {
    if |dir| == |root| {
      assert dir[..|dir|] == dir;
    } else {
      var up := dir[..|dir| - 1];
      ChainAt(root, up, if i == 0 then 0 else i - 1);
      if i == 0 { assert dir[..|dir|] == dir; } else { assert up[..|up| - (i - 1)] == dir[..|dir| - i]; }
    }
  }

  /** The walk of `SyncDirChain`: the chain, or None when `dir` is not under `root`. */
  method BuildChain(root: Path, dir: Path) returns (r: Option<seq<Path>>)
    ensures r == if root <= dir then Some(Chain(root, dir)) else None
  {
    var chain: seq<Path> := [];
    var d := dir;
    while true
      invariant d <= dir
      invariant root <= dir ==> root <= d && chain + Chain(root, d) == Chain(root, dir)
      invariant forall p: Path | p <= dir && |p| > |d| :: p != root
      decreases |d|
    {
      chain := chain + [d];
      if d == root { return Some(chain); }
      if d == [] { return None; }
      d := d[..|d| - 1];
    }
  }

  // ---------------------------------------------------------------- what must hold at every crash point

  /** The file being replaced: where it is, the disk as it was found, and what the file is to hold. */
  datatype Goal = Goal(dir: Path, name: string, before: Disk, data: string)

  /** A crash now leaves what a crash could have left before, or the complete new contents. */
  ghost predicate CrashSafe(d: Disk, g: Goal) {
    forall r :: AfterCrash(d, g.dir, g.name, r) ==> AfterCrash(g.before, g.dir, g.name, r) || r == Some(g.data)
  }

  /** A crash now, or later with nothing else done, leaves the new contents. */
  ghost predicate Committed(d: Disk, g: Goal) {
    forall r :: AfterCrash(d, g.dir, g.name, r) ==> r == Some(g.data)
  }

  /** A crash now leaves the complete old or the complete new contents. */
  ghost predicate OldOrNew(d: Disk, g: Goal) {
    forall r :: AfterCrash(d, g.dir, g.name, r) ==> r == Current(g.before, g.name) || r == Some(g.data)
  }

  /** An entry the target may have leads to the complete new contents, or is an old one with its file untouched. */
  predicate GoodEntry(d: Disk, g: Goal, e: Option<nat>) {
    || (e.Some? && e.value < |d.files| && d.files[e.value] == File(g.data, true))
    || (e in MayBe(g.before, g.name)
        && (e.Some? ==>
              e.value < |g.before.files| && e.value < |d.files| && d.files[e.value] == g.before.files[e.value]))
  }

  predicate Good(d: Disk, g: Goal) {
    && (Survives(g.before, g.dir) ==> Survives(d, g.dir))
    && forall e | e in MayBe(d, g.name) :: GoodEntry(d, g, e)
  }

  lemma GoodIsCrashSafe(d: Disk, g: Goal)
    requires Good(d, g)
    ensures CrashSafe(d, g)
  {
    forall r | AfterCrash(d, g.dir, g.name, r) ensures AfterCrash(g.before, g.dir, g.name, r) || r == Some(g.data) {
      if e :| e in MayBe(d, g.name) && Readable(d, e, r) {
        assert GoodEntry(d, g, e);
        assert e in MayBe(g.before, g.name) && Readable(g.before, e, r) ==> AfterCrash(g.before, g.dir, g.name, r);
      }
    }
  }

  /** A disk as any call may find it: nothing need be synced. */
  predicate Sound(d: Disk, dir: Path, name: string) {
    && [] in d.dirs && [] in d.settled
    && (forall i, j | 0 <= i <= j <= |dir| && dir[..j] in d.dirs :: dir[..i] in d.dirs)
    && (dir !in d.dirs ==> d.names == map[] && d.unsettled == map[])
    && forall e | e in MayBe(d, name) && e.Some? :: e.value < |d.files|
  }

  lemma SoundIsGood(d: Disk, g: Goal)
    requires Sound(d, g.dir, g.name) && g.before == d
    ensures Good(d, g)
  {
  }

  /** The directories from the root of the tree down to depth n survive a crash. */
  predicate SettledTo(d: Disk, dir: Path, n: nat)
    requires n <= |dir|
  {
    forall i | 0 <= i <= n :: dir[..i] in d.settled
  }

  predicate AllExist(d: Disk, dir: Path) { forall i | 0 <= i <= |dir| :: dir[..i] in d.dirs }

  /** A disk on which what exists of the target and the directories above it is durable. */
  predicate Durable(d: Disk, dir: Path, name: string) {
    && Sound(d, dir, name) && name !in d.unsettled
    && (forall i | 0 <= i <= |dir| && dir[..i] in d.dirs :: dir[..i] in d.settled)
    && (name in d.names ==> d.names[name] < |d.files| && d.files[d.names[name]].synced)
  }

  /** There a crash leaves what is there. */
  lemma DurableStays(d: Disk, dir: Path, name: string, r: Option<string>)
    requires Durable(d, dir, name) && AfterCrash(d, dir, name, r)
    ensures r == Current(d, name)
  {
    assert MayBe(d, name) == {Entry(d, name)};
    if dir in d.dirs {
      assert dir[..|dir|] == dir;
      assert Survives(d, dir);
    }
  }

  lemma DurableOldOrNew(d: Disk, g: Goal)
    requires Durable(g.before, g.dir, g.name) && CrashSafe(d, g)
    ensures OldOrNew(d, g)
  {
    forall r | AfterCrash(d, g.dir, g.name, r) ensures r == Current(g.before, g.name) || r == Some(g.data) {
      if AfterCrash(g.before, g.dir, g.name, r) { DurableStays(g.before, g.dir, g.name, r); }
    }
  }

  lemma DurableSettled(d: Disk, dir: Path, name: string, root: Path)
    requires Durable(d, dir, name) && root <= dir && root in d.dirs
    ensures SettledTo(d, dir, |root|)
  {
    assert dir[..|root|] == root;
  }

  // ---------------------------------------------------------------- single operations keep it

  lemma OtherEntryGood(d: Disk, g: Goal, name: string, entry: Option<nat>)
    requires Good(d, g) && name != g.name
    ensures Good(SetEntry(d, name, entry), g)
  {
    assert MayBe(SetEntry(d, name, entry), g.name) == MayBe(d, g.name);
  }

  lemma FreshFileGood(d: Disk, g: Goal, temp: string)
    requires Good(d, g) && temp != g.name
    ensures Good(Create(d, temp), g)
  {
    var more := d.(files := d.files + [File("", false)]);
    assert MayBe(more, g.name) == MayBe(d, g.name);
    assert Good(more, g);
    OtherEntryGood(more, g, temp, Some(|d.files|));
  }

  /** The file is no entry the target may have. */
  predicate Apart(d: Disk, g: Goal, ino: nat) { Some(ino) !in MayBe(d, g.name) }

  lemma FileChangeGood(d: Disk, g: Goal, ino: nat, f: File)
    requires Good(d, g) && ino < |d.files| && Apart(d, g, ino)
    ensures Good(d.(files := d.files[ino := f]), g)
  {
    var d' := d.(files := d.files[ino := f]);
    assert MayBe(d', g.name) == MayBe(d, g.name);
    forall e | e in MayBe(d', g.name) ensures GoodEntry(d', g, e) { assert GoodEntry(d, g, e); }
  }

  lemma RenameGood(d: Disk, g: Goal, temp: string)
    requires Good(d, g) && temp in d.names && temp != g.name && d.names[temp] < |d.files|
    requires d.files[d.names[temp]] == File(g.data, true)
    ensures Good(Rename(d, temp, g.name), g)
    ensures Entry(Rename(d, temp, g.name), g.name) == Some(d.names[temp])
  {
    var e := Some(d.names[temp]);
    var d1 := SetEntry(d, g.name, e);
    assert MayBe(d1, g.name) == MayBe(d, g.name) + {e};
    assert Good(d1, g) by {
      forall x | x in MayBe(d1, g.name) ensures GoodEntry(d1, g, x) {
        if x != e { assert GoodEntry(d, g, x); }
      }
    }
    OtherEntryGood(d1, g, temp, None);
  }

  lemma SyncGood(d: Disk, g: Goal, path: Path)
    requires Good(d, g)
    ensures Good(SyncDir(d, path, g.dir), g)
  {
    var d' := SyncDir(d, path, g.dir);
    assert MayBe(d', g.name) <= MayBe(d, g.name);
    forall e | e in MayBe(d', g.name) ensures GoodEntry(d', g, e) { assert GoodEntry(d, g, e); }
  }

  lemma MkdirGood(d: Disk, g: Goal, path: Path)
    requires Good(d, g)
    ensures Good(Mkdir(d, path), g)
  {
    var d' := Mkdir(d, path);
    assert MayBe(d', g.name) == MayBe(d, g.name);
    forall e | e in MayBe(d', g.name) ensures GoodEntry(d', g, e) { assert GoodEntry(d, g, e); }
  }

  /** Once the data directory is synced, the entry that is there stays, exactly if the directories above it do. */
  lemma CommittedIffSurvives(d: Disk, g: Goal, ino: nat)
    requires d.unsettled == map[] && Entry(d, g.name) == Some(ino) && ino < |d.files|
        && d.files[ino] == File(g.data, true)
    ensures Committed(d, g) <==> Survives(d, g.dir)
  {
    assert MayBe(d, g.name) == {Some(ino)};
    if !Survives(d, g.dir) { assert AfterCrash(d, g.dir, g.name, None); }
  }

  // ---------------------------------------------------------------- what the chain of syncs does

  /** Syncing one directory on the way settles the next one down, and none above it. */
  lemma SyncSettles(d: Disk, dir: Path, k: nat, dataDir: Path)
    requires k <= |dir| && AllExist(d, dir)
    ensures var d' := SyncDir(d, dir[..k], dataDir);
            && (forall i | 0 <= i <= |dir| && i != k + 1 :: dir[..i] in d'.settled <==> dir[..i] in d.settled)
            && (k < |dir| ==> dir[..k + 1] in d'.settled)
  {
    forall i | 0 <= i <= |dir| && i != k + 1 && dir[..i] != [] ensures dir[..i][..|dir[..i]| - 1] != dir[..k] {
      assert |dir[..i][..|dir[..i]| - 1]| == i - 1;
    }
    if k < |dir| { assert dir[..k + 1][..k] == dir[..k]; }
  }

  /** The file in place, its directory synced, and then the chain from the data directory up to `root`. */
  function Synced(d: Disk, dir: Path, root: nat): Disk
    requires root <= |dir|
    decreases |dir| - root
  {
    if root == |dir| then SyncDir(d, dir, dir) else SyncDir(Synced(d, dir, root + 1), dir[..root], dir)
  }

  lemma {:induction false} SyncedShape(d: Disk, dir: Path, root: nat)
    requires root <= |dir| && AllExist(d, dir)
    ensures var d' := Synced(d, dir, root);
            && d'.dirs == d.dirs && d'.names == d.names && d'.files == d.files && d'.unsettled == map[]
            && forall i | 0 <= i <= |dir| :: dir[..i] in d'.settled <==> i > root || dir[..i] in d.settled
    decreases |dir| - root
  {
    if root == |dir| {
      assert dir[..root] == dir;
      SyncSettles(d, dir, root, dir);
    } else {
      SyncedShape(d, dir, root + 1);
      assert |dir[..root]| != |dir|;
      SyncSettles(Synced(d, dir, root + 1), dir, root, dir);
    }
  }

  /** So the chain commits the file iff the directories down to its upper end were settled already. */
  lemma ChainCommitsIff(d: Disk, g: Goal, root: nat, ino: nat)
    requires root <= |g.dir| && AllExist(d, g.dir)
    requires Entry(d, g.name) == Some(ino) && ino < |d.files| && d.files[ino] == File(g.data, true)
    ensures Committed(Synced(d, g.dir, root), g) <==> SettledTo(d, g.dir, root)
  {
    SyncedShape(d, g.dir, root);
    CommittedIffSurvives(Synced(d, g.dir, root), g, ino);
  }

  /**
   A directory that an earlier call made, and whose parent it failed to sync, is taken for a
   durable one: the chain of the next call ends there, and a crash still loses the file.
   */
  lemma RetryLoses(d: Disk, g: Goal, ino: nat)
    requires g.dir != [] && Durable(d, g.dir, g.name) && g.dir[..|g.dir| - 1] in d.dirs && g.dir !in d.dirs
        && g.dir !in d.settled
    requires ino < |d.files| && d.files[ino] == File(g.data, true)
    ensures var found := Mkdir(d, g.dir);
            var placed := SetEntry(found, g.name, Some(ino));
            && Sound(found, g.dir, g.name) && g.dir in found.dirs
            && !Committed(Synced(placed, g.dir, |g.dir|), g) && Committed(Synced(placed, g.dir, |g.dir| - 1), g)
  {
    var dir := g.dir;
    var found := Mkdir(d, dir);
    var placed := SetEntry(found, g.name, Some(ino));
    assert dir[..|dir|] == dir;
    forall i | 0 <= i < |dir| ensures dir[..i] in d.dirs {
      assert dir[..|dir| - 1] in d.dirs;
    }
    assert AllExist(placed, dir);
    MadeIsSound(d, dir, g.name);
    ChainCommitsIff(placed, g, |dir|, ino);
    ChainCommitsIff(placed, g, |dir| - 1, ino);
  }

  lemma MadeIsSound(d: Disk, dir: Path, name: string)
    requires dir != [] && Sound(d, dir, name) && dir[..|dir| - 1] in d.dirs
    ensures Sound(Mkdir(d, dir), dir, name)
  {
    var found := Mkdir(d, dir);
    assert MayBe(found, name) == MayBe(d, name);
    forall i, j | 0 <= i <= j <= |dir| && dir[..j] in found.dirs ensures dir[..i] in found.dirs {
      if j == |dir| && i < j { assert dir[..|dir| - 1] in d.dirs; }
    }
  }

  // ---------------------------------------------------------------- the procedure

  predicate ValidFileName(name: string) {
    name != "" && name != "." && name != ".." && '/' !in name && '\\' !in name && '\0' !in name
  }

  /** `OpenFile` lets the temporary file be made: a plain name, an owner-only mode, and no such file yet. */
  predicate Accepts(name: string, ownerOnly: bool, names: map<string, nat>) {
    ValidFileName(name) && ownerOnly && name + ".tmp" !in names
  }

  /** The disk, with every state it has been in. */
  class FileSystem {
    const dataDir: Path
    var disk: Disk
    ghost var history: seq<Disk>
    ghost var failed: bool            // some call failed or wrote short

    constructor (dir: Path, d: Disk)
      ensures dataDir == dir && disk == d && history == [] && !failed
    {
      dataDir := dir;
      disk := d;
      history := [];
      failed := false;
    }

    /** Every state since `from`, and the present one, is crash safe. */
    ghost predicate Safe(from: nat, g: Goal)
      reads this
    {
      && g.dir == dataDir && from <= |history| && Good(disk, g)
      && forall i | from <= i < |history| :: CrashSafe(history[i], g)
    }

    /** One operation takes effect. */
    method Apply(d: Disk, ghost from: nat, ghost g: Goal)
      requires Safe(from, g) && Good(d, g)
      modifies this`disk, this`history
      ensures Safe(from, g) && disk == d && history == old(history) + [d]
    {
      GoodIsCrashSafe(d, g);
      disk := d;
      history := history + [d];
    }

    /** Whether a system call succeeds. */
    method Succeeds() returns (ok: bool)
      modifies this`failed
      ensures failed == (old(failed) || !ok)
    {
      ok := *;
      failed := failed || !ok;
    }

    /** Whether a probe succeeds, whose failure is not taken as one. */
    method Probe() returns (ok: bool)
    {
      ok := *;
    }

    /** `DeepestExistingAncestor`; a failed probe counts as absent. */
    method DeepestExistingAncestor(dir: Path) returns (root: Path)
      requires [] in disk.dirs
      ensures root <= dir && root in disk.dirs
    {
      root := dir;
      while root != []
        invariant root <= dir
        decreases |root|
      {
        var probed := Probe();
        if probed && root in disk.dirs { return; }
        root := root[..|root| - 1];
      }
    }

    /** The path as far as it exists, with nothing that existed settled or lost since. */
    twostate predicate PathKept(n: nat)
      requires n <= |dataDir|
      reads this
    {
      && (forall i | 0 <= i <= n :: dataDir[..i] in disk.dirs)
      && (forall i | 0 <= i <= |dataDir| && dataDir[..i] in old(disk).dirs :: dataDir[..i] in disk.dirs)
      && (forall i | 0 <= i <= |dataDir| && dataDir[..i] in old(disk).dirs ::
            dataDir[..i] in disk.settled <==> dataDir[..i] in old(disk).settled)
      && disk.names == old(disk.names) && disk.files == old(disk.files) && disk.unsettled == old(disk.unsettled)
    }

    /** `OpenDataDir` with create: makes what is missing, syncing the parent of each directory it makes. */
    method OpenDataDir(ghost from: nat, ghost g: Goal) returns (ok: bool)
      requires Safe(from, g) && [] in disk.dirs && !failed
      modifies this
      ensures Safe(from, g) && PathKept(0) && (ok <==> !failed)
      ensures ok ==> AllExist(disk, dataDir)
    {
      var i := 0;
      assert dataDir[..0] == [];
      while i < |dataDir|
        invariant 0 <= i <= |dataDir| && Safe(from, g) && PathKept(i) && !failed
      {
        ok := EnterDir(i, from, g);
        if !ok { return; }
        i := i + 1;
      }
      ok := true;
    }

    /** Opens component i of the data directory, making it first if it is missing. */
    method EnterDir(i: nat, ghost from: nat, ghost g: Goal) returns (ok: bool)
      requires i < |dataDir| && Safe(from, g) && forall j | 0 <= j <= i :: dataDir[..j] in disk.dirs
      requires !failed
      modifies this
      ensures Safe(from, g) && PathKept(i) && (ok ==> PathKept(i + 1)) && (ok <==> !failed)
    {
      var child := dataDir[..i + 1];
      if child !in disk.dirs {
        ok := Succeeds();
        if !ok { return; }
        MkdirGood(disk, g, child);
        Apply(Mkdir(disk, child), from, g);
        ok := Succeeds();
        if !ok { return; }
        SyncGood(disk, g, dataDir[..i]);
        MadeAndSynced(old(disk), dataDir, i);
        Apply(SyncDir(disk, dataDir[..i], dataDir), from, g);
      }
      ok := Succeeds();
    }

    /** The directories stand, and only the named entries may have changed. */
    twostate predicate Contained(name: string, temp: string)
      reads this
    {
      && AllExist(disk, dataDir) && old(history) <= history
      && forall n | n != name && n != temp :: Entry(disk, n) == old(Entry(disk, n))
    }

    /** `file.Write`, `file.Sync` and `file.Close` on the temporary file; each may fail, and the write may be short. */
    method FillTemp(ino: nat, data: string, ghost from: nat, ghost g: Goal) returns (ok: bool)
      requires Safe(from, g) && g.data == data && ino < |disk.files| && Apart(disk, g, ino) && !failed
      modifies this
      ensures Safe(from, g) && old(history) <= history && (ok <==> !failed)
      ensures disk.(files := []) == old(disk).(files := []) && |disk.files| == |old(disk.files)|
      ensures forall i | 0 <= i < |disk.files| && i != ino :: disk.files[i] == old(disk.files)[i]
      ensures ok ==> disk.files[ino] == File(data, true)
    {
      var n :| 0 <= n <= |data|;
      FileChangeGood(disk, g, ino, File(data[..n], false));
      Apply(Write(disk, ino, data[..n]), from, g);
      ok := Succeeds();
      if !ok || n != |data| {
        failed := true;
        return false;
      }
      assert data[..n] == data;
      ok := Succeeds();
      if !ok { return; }
      FileChangeGood(disk, g, ino, File(data, true));
      Apply(SyncFile(disk, ino), from, g);
      ok := Succeeds();
    }

    /** `SyncChain`: the pinned directory itself, then the chain up to the root, leaf first. */
    method SyncChain(root: Path, ghost from: nat, ghost g: Goal) returns (ok: bool)
      requires Safe(from, g) && AllExist(disk, dataDir) && !failed
      modifies this
      ensures Safe(from, g) && AllExist(disk, dataDir) && old(history) <= history
      ensures ok <==> !failed && root <= dataDir
      ensures disk.names == old(disk.names) && disk.files == old(disk.files)
      ensures ok ==> root <= dataDir && disk == Synced(old(disk), dataDir, |root|)
    {
      ok := Succeeds();
      if !ok { return; }
      SyncGood(disk, g, dataDir);
      Apply(SyncDir(disk, dataDir, dataDir), from, g);
      assert disk == Synced(old(disk), dataDir, |dataDir|);
      var chain := BuildChain(root, dataDir);
      if chain.None? { return false; }
      ChainAt(root, dataDir, 0);
      var i := 0;
      while i < |chain.value|
        invariant 0 <= i <= |chain.value| && Safe(from, g) && old(history) <= history && !failed
        invariant disk == Synced(old(disk), dataDir, if i == 0 then |dataDir| else |dataDir| - i + 1)
        invariant disk.dirs == old(disk.dirs) && disk.names == old(disk.names) && disk.files == old(disk.files)
      {
        ok := Succeeds();
        if !ok { return; }
        ChainAt(root, dataDir, i);
        if chain.value[i] != dataDir {
          SyncGood(disk, g, chain.value[i]);
          Apply(SyncDir(disk, chain.value[i], dataDir), from, g);
        }
        i := i + 1;
      }
      ok := true;
    }

    /** The deferred cleanup of a temporary file that this call made; it may fail. */
    method RemoveTemp(temp: string, ghost from: nat, ghost g: Goal)
      requires Safe(from, g) && temp != g.name && failed
      modifies this
      ensures Safe(from, g) && old(history) <= history && failed
      ensures disk == old(disk) || disk == Remove(old(disk), temp)
    {
      var removed := Succeeds();
      if removed {
        OtherEntryGood(disk, g, temp, None);
        Apply(Remove(disk, temp), from, g);
      }
    }

    /** Everything after the directory is open: look at the target, fill a temporary file, rename it, sync. */
    method Replace(name: string, data: string, ownerOnly: bool, root: Path, ghost from: nat, ghost g: Goal)
      returns (ok: bool)
      requires Safe(from, g) && g.name == name && g.data == data && AllExist(disk, dataDir) && !failed
      requires forall e | e in MayBe(disk, name) && e.Some? :: e.value < |disk.files|
      modifies this
      ensures Safe(from, g) && Contained(name, name + ".tmp")
      ensures Current(disk, name) == old(Current(disk, name)) || Current(disk, name) == Some(data)
      ensures ok ==> Current(disk, name) == Some(data) && root <= dataDir
      ensures ok ==> (Committed(disk, g) <==> SettledTo(old(disk), dataDir, |root|))
      ensures ok <==> !failed && root <= dataDir && Accepts(name, ownerOnly, old(disk.names))
      ensures ok ==> name + ".tmp" !in disk.names
      ensures !Accepts(name, ownerOnly, old(disk.names)) ==> disk == old(disk)
    {
      if !ValidFileName(name) { return false; }
      var looked := Succeeds();
      if !looked { return false; }
      var temp := name + ".tmp";
      assert |temp| != |name|;
      if !ownerOnly || temp in disk.names { return false; }
      ok := Succeeds();
      if !ok { return; }
      FreshFileGood(disk, g, temp);
      FreshIsApart(disk, g, temp);
      Apply(Create(disk, temp), from, g);
      ok := Succeeds();
      if !ok { return; }
      var ino := disk.names[temp];
      ok := FillTemp(ino, data, from, g);
      var renamed := Succeeds();
      if !ok || !renamed {
        RemoveTemp(temp, from, g);
        return false;
      }
      ok := Publish(temp, name, data, root, from, g);
    }

    /** The rename, and the sync that makes it last. */
    method Publish(temp: string, name: string, data: string, root: Path, ghost from: nat, ghost g: Goal)
      returns (ok: bool)
      requires Safe(from, g) && g.name == name && g.data == data && AllExist(disk, dataDir) && temp != name
      requires !failed
      requires temp in disk.names && disk.names[temp] < |disk.files| && disk.files[disk.names[temp]] == File(data, true)
      modifies this
      ensures Safe(from, g) && Contained(name, temp) && Current(disk, name) == Some(data)
      ensures ok <==> !failed && root <= dataDir
      ensures ok ==> temp !in disk.names && (Committed(disk, g) <==> SettledTo(old(disk), dataDir, |root|))
    {
      ghost var ino := disk.names[temp];
      RenameGood(disk, g, temp);
      Apply(Rename(disk, temp, name), from, g);
      ghost var placed := disk;
      ok := SyncChain(root, from, g);
      if ok { ChainCommitsIff(placed, g, |root|, ino); }
    }

    /**
     `AtomicDataFile`, on any disk: every state it goes through is crash safe; on success
     the new contents stay iff the directories down to `root`, where the chain of syncs
     ends, were settled. It succeeds iff the name and the mode are acceptable, no temporary
     file is there, and no call fails; what is not accepted touches nothing. From a durable
     start a crash finds old or new, and success means new.
     */
    method AtomicDataFile(name: string, data: string, ownerOnly: bool) returns (ok: bool, ghost root: Path)
      requires Sound(disk, dataDir, name)
      modifies this
      ensures root <= dataDir && root in old(disk).dirs
      ensures var g := Goal(dataDir, name, old(disk), data);
              && (forall i | |old(history)| <= i < |history| :: CrashSafe(history[i], g)) && CrashSafe(disk, g)
              && (ok ==> (Committed(disk, g) <==> SettledTo(old(disk), dataDir, |root|)))
      ensures ok ==> Current(disk, name) == Some(data)
      ensures Current(disk, name) == old(Current(disk, name)) || Current(disk, name) == Some(data)
      ensures old(Durable(disk, dataDir, name)) ==>
                var g := Goal(dataDir, name, old(disk), data);
                && (forall i | |old(history)| <= i < |history| :: OldOrNew(history[i], g)) && OldOrNew(disk, g)
                && (ok ==> Committed(disk, g))
      ensures forall n | n != name && n != name + ".tmp" :: Entry(disk, n) == old(Entry(disk, n))
      ensures ok <==> !failed && Accepts(name, ownerOnly, old(disk.names))
      ensures ok ==> name + ".tmp" !in disk.names
      ensures !Accepts(name, ownerOnly, old(disk.names)) ==>
                disk.names == old(disk.names) && disk.files == old(disk.files) && disk.unsettled == old(disk.unsettled)
    {
      failed := false;
      ghost var from := |history|;
      ghost var g := Goal(dataDir, name, disk, data);
      SoundIsGood(disk, g);
      var upper := DeepestExistingAncestor(dataDir);
      root := upper;
      ok := OpenDataDir(from, g);
      if ok {
        RootKept(old(disk), disk, dataDir, name, upper);
        ok := Replace(name, data, ownerOnly, upper, from, g);
        var closed := Succeeds();
        ok := ok && closed;
      }
      GoodIsCrashSafe(disk, g);
      if Durable(g.before, dataDir, name) {
        DurableSettled(g.before, dataDir, name, upper);
        forall i | from <= i < |history| ensures OldOrNew(history[i], g) { DurableOldOrNew(history[i], g); }
        DurableOldOrNew(disk, g);
      }
    }
  }

  lemma RootKept(d: Disk, d': Disk, dir: Path, name: string, root: Path)
    requires Sound(d, dir, name) && root <= dir && root in d.dirs
    requires forall i | 0 <= i <= |dir| && dir[..i] in d.dirs :: dir[..i] in d'.settled <==> dir[..i] in d.settled
    ensures SettledTo(d', dir, |root|) <==> SettledTo(d, dir, |root|)
  {
    assert dir[..|root|] == root;
    assert forall i | 0 <= i <= |root| :: dir[..i] in d.dirs;
  }

  lemma FreshIsApart(d: Disk, g: Goal, temp: string)
    requires temp != g.name && forall e | e in MayBe(d, g.name) && e.Some? :: e.value < |d.files|
    ensures Apart(Create(d, temp), g, |d.files|)
  {
    assert MayBe(Create(d, temp), g.name) == MayBe(d, g.name);
  }

  lemma MadeAndSynced(d: Disk, dir: Path, i: nat)
    requires i < |dir| && dir[..i + 1] !in d.dirs
    ensures var d' := SyncDir(Mkdir(d, dir[..i + 1]), dir[..i], dir);
            && d'.dirs == d.dirs + {dir[..i + 1]} && d'.unsettled == d.unsettled
            && forall j | 0 <= j <= |dir| && j != i + 1 :: dir[..j] in d'.settled <==> dir[..j] in d.settled
  {
    assert |dir[..i]| != |dir|;
    forall j | 0 <= j <= |dir| && j != i + 1 && dir[..j] != [] ensures dir[..j][..|dir[..j]| - 1] != dir[..i] {
      assert |dir[..j][..|dir[..j]| - 1]| == j - 1;
    }
  }
}
