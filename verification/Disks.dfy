/** The filesystem the save phase rewrites: named entries, hard links as shared inodes, and
    operations that may fail at any time. */
module Disks {
  import opened Options

  type byte = x: nat | x < 256
  type Bytes = seq<byte>
  type Path = seq<string>
  type Inode = nat

  /** Two file entries with one inode are hard links to the same content. */
  datatype Entry = Directory | Symlink | Other | File(inode: Inode)

  datatype EntryKind = DirectoryKind | SymlinkKind | OtherKind | FileKind

  datatype IoKind =
    | NonUnicodeComponent | SymlinkAtDocumentPath | NotADirectory | NotAFile | SourceChanged
    | NotFound | IoError(code: nat)

  datatype Result<+R> = Ok(value: R) | Err(kind: IoKind)

  function KindOf(e: Entry): EntryKind {
    match e
    case Directory => DirectoryKind
    case Symlink => SymlinkKind
    case Other => OtherKind
    case File(_) => FileKind
  }

  type Contents = map<Inode, Bytes>

  /** The bytes a path reads as, when it names a file. */
  function Reads(entries: map<Path, Entry>, content: Contents, path: Path): Option<Bytes> {
    if path in entries && entries[path].File? && entries[path].inode in content
    then Some(content[entries[path].inode]) else None
  }

  class Disk {
    const entries: map<Path, Entry>
    /** The failure, if any, of the n-th operation. */
    const faults: nat -> Option<IoKind>
    /** How much of the data the n-th operation writes when it fails. */
    const torn: nat -> nat
    var content: Contents
    var clock: nat

    ghost predicate Valid()
      reads this
    {
      forall p :: p in entries && entries[p].File? ==> entries[p].inode in content
    }

    /** Observes a path without following a terminal symlink. */
    method Metadata(path: Path) returns (r: Result<EntryKind>)
      modifies this`clock
      ensures clock == old(clock) + 1
      ensures r == if faults(old(clock)).Some? then Err(faults(old(clock)).value)
                   else if path in entries then Ok(KindOf(entries[path])) else Err(NotFound)
    {
      var fault := faults(clock);
      clock := clock + 1;
      if fault.Some? { return Err(fault.value); }
      r := if path in entries then Ok(KindOf(entries[path])) else Err(NotFound);
    }

    method ReadFile(path: Path) returns (r: Result<Bytes>)
      requires Valid()
      modifies this`clock
      ensures clock == old(clock) + 1
      ensures r == if faults(old(clock)).Some? then Err(faults(old(clock)).value)
                   else if Reads(entries, content, path).Some? then Ok(Reads(entries, content, path).value)
                   else Err(NotFound)
    {
      var fault := faults(clock);
      clock := clock + 1;
      if fault.Some? { return Err(fault.value); }
      var bytes := Reads(entries, content, path);
      r := if bytes.Some? then Ok(bytes.value) else Err(NotFound);
    }

    /** Opens an existing file and empties it; a failed open leaves it as it was. */
    method OpenTruncate(path: Path) returns (r: Result<Inode>)
      requires Valid()
      modifies this`clock, this`content
      ensures Valid() && clock == old(clock) + 1
      ensures r.Ok? ==> path in entries && entries[path] == File(r.value) && content == old(content)[r.value := []]
      ensures r.Err? ==> content == old(content)
      ensures faults(old(clock)).None? && path in entries && entries[path].File? ==> r.Ok?
    {
      var fault := faults(clock);
      clock := clock + 1;
      if fault.Some? { return Err(fault.value); }
      if path !in entries || !entries[path].File? { return Err(NotFound); }
      content := content[entries[path].inode := []];
      r := Ok(entries[path].inode);
    }

    /** Writes all bytes through an open handle, or only some of them when it fails. */
    method WriteAll(inode: Inode, bytes: Bytes) returns (r: Result<()>)
      requires Valid()
      modifies this`clock, this`content
      ensures Valid() && clock == old(clock) + 1
      ensures r.Ok? ==> content == old(content)[inode := bytes]
      ensures r.Err? ==> exists k :: 0 <= k <= |bytes| && content == old(content)[inode := bytes[..k]]
      ensures faults(old(clock)).None? ==> r.Ok?
    {
      var fault := faults(clock);
      var part := if torn(clock) <= |bytes| then torn(clock) else |bytes|;
      clock := clock + 1;
      if fault.Some? {
        content := content[inode := bytes[..part]];
        return Err(fault.value);
      }
      content := content[inode := bytes];
      r := Ok(());
    }

    method SyncAll() returns (r: Result<()>)
      modifies this`clock
      ensures clock == old(clock) + 1
      ensures faults(old(clock)).None? ==> r.Ok?
    {
      var fault := faults(clock);
      clock := clock + 1;
      r := if fault.Some? then Err(fault.value) else Ok(());
    }

    /** Whether two paths are one file; a missing path is unlike every other. */
    method SameFile(left: Path, right: Path) returns (r: Result<bool>)
      modifies this`clock
      ensures clock == old(clock) + 1
      ensures r == if faults(old(clock)).Some? then Err(faults(old(clock)).value)
                   else Ok(left in entries && right in entries
                           && entries[left] == entries[right] && entries[left].File?)
    {
      var fault := faults(clock);
      clock := clock + 1;
      if fault.Some? { return Err(fault.value); }
      r := Ok(left in entries && right in entries && entries[left] == entries[right] && entries[left].File?);
    }

    constructor (entries: map<Path, Entry>, content: Contents, faults: nat -> Option<IoKind>, torn: nat -> nat)
      ensures this.entries == entries && this.content == content
      ensures this.faults == faults && this.torn == torn && clock == 0
    {
      this.entries, this.content, this.faults, this.torn, this.clock := entries, content, faults, torn, 0;
    }
  }
}
