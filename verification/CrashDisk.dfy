/**
 A file system with a crash: what a program sees, and what may be found after power is
 lost. Directory entries that were changed and not yet synced may come back as any value
 they had since the last sync of their directory; a file that was not synced may come back
 with any contents. The model follows one data directory and the directories above it.
 */
module CrashDisk {
  import opened Bytes

  /** An absolute path, as its components. */
  type Path = seq<string>

  /** Whether the contents are known to survive a crash. */
  datatype File = File(content: string, synced: bool)

  datatype Disk = Disk(
    dirs: set<Path>,                          // directories that exist
    settled: set<Path>,                       // directories whose own entry survives a crash
    files: seq<File>,                         // by inode
    names: map<string, nat>,                  // entries of the data directory
    unsettled: map<string, set<Option<nat>>>) // entries changed since its last sync, with all they may come back as

  function Entry(d: Disk, name: string): Option<nat> {
    if name in d.names then Some(d.names[name]) else None
  }

  /** What the entry may be after a crash. */
  function MayBe(d: Disk, name: string): set<Option<nat>> {
    if name in d.unsettled then d.unsettled[name] + {Entry(d, name)} else {Entry(d, name)}
  }

  /** What reading the entry may give after a crash. */
  predicate Readable(d: Disk, entry: Option<nat>, r: Option<string>) {
    match entry
    case None => r == None
    case Some(ino) => ino < |d.files| && r.Some? && (d.files[ino].synced ==> r == Some(d.files[ino].content))
  }

  /** Every directory down to and including `dir` survives a crash. */
  predicate Survives(d: Disk, dir: Path) {
    forall i | 0 <= i <= |dir| :: dir[..i] in d.dirs && dir[..i] in d.settled
  }

  /** The name, looked up in the data directory `dir` after a crash, may read as r. */
  predicate AfterCrash(d: Disk, dir: Path, name: string, r: Option<string>) {
    (!Survives(d, dir) && r == None) || exists e :: e in MayBe(d, name) && Readable(d, e, r)
  }

  /** What a program reads now. */
  function Current(d: Disk, name: string): Option<string> {
    if name in d.names && d.names[name] < |d.files| then Some(d.files[d.names[name]].content) else None
  }

  // ---------------------------------------------------------------- operations

  function Mkdir(d: Disk, path: Path): Disk { d.(dirs := d.dirs + {path}) }

  /** Syncing a directory settles the directories in it and, for the data directory, its entries. */
  function SyncDir(d: Disk, path: Path, dataDir: Path): Disk {
    var children := set c | c in d.dirs && c != [] && c[..|c| - 1] == path;
    d.(settled := d.settled + children, unsettled := if path == dataDir then map[] else d.unsettled)
  }

  /** An entry takes a new value, and may come back as any it had. */
  function SetEntry(d: Disk, name: string, entry: Option<nat>): Disk {
    d.(unsettled := d.unsettled[name := MayBe(d, name) + {entry}],
       names := if entry.Some? then d.names[name := entry.value] else d.names - {name})
  }

  function Create(d: Disk, name: string): Disk {
    SetEntry(d.(files := d.files + [File("", false)]), name, Some(|d.files|))
  }

  function Write(d: Disk, ino: nat, content: string): Disk
    requires ino < |d.files|
  {
    d.(files := d.files[ino := File(content, false)])
  }

  function SyncFile(d: Disk, ino: nat): Disk
    requires ino < |d.files|
  {
    d.(files := d.files[ino := d.files[ino].(synced := true)])
  }

  function Rename(d: Disk, from: string, to: string): Disk
    requires from in d.names
  {
    SetEntry(SetEntry(d, to, Some(d.names[from])), from, None)
  }

  function Remove(d: Disk, name: string): Disk { SetEntry(d, name, None) }
}
