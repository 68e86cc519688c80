/** The save phase: plan the byte-different files, refuse hard-linked targets, rewrite in order. */
module SavePhase {
  import opened Disks
  import opened Options
  import opened Pointers
  import opened Texts

  type Files = map<string, Bytes>

  datatype Update = Update(logical: string, bytes: Bytes)

  /** Joins the components of a logical path onto the campaign root. */
  function DiskPath(root: Path, logical: string): Path {
    root + Split(logical)
  }

  // --- Planning ------------------------------------------------------------------------

  /** The byte-different files, each once, in lexical order. */
  ghost predicate IsPlan(files: Files, serialized: Files, updates: seq<Update>) {
    && (forall i :: 0 <= i < |updates| ==>
          && updates[i].logical in files && updates[i].logical in serialized
          && updates[i].bytes == serialized[updates[i].logical] != files[updates[i].logical])
    && (forall p :: p in files && p in serialized && files[p] != serialized[p] ==>
          exists i :: 0 <= i < |updates| && updates[i].logical == p)
    && (forall i, j :: 0 <= i < j < |updates| ==> TextLt(updates[i].logical, updates[j].logical))
  }

  predicate TextLt(a: string, b: string) {
    TextLe(a, b) && a != b
  }

  lemma LeastText(texts: set<string>) returns (least: string)
    requires texts != {}
    ensures least in texts && forall t :: t in texts ==> TextLe(least, t)
  {
    var t :| t in texts;
    if texts == {t} {
      least := t;
      TextLeTotal(t, t);
    } else {
      var rest := LeastText(texts - {t});
      TextLeTotal(t, rest);
      TextLeTotal(t, t);
      least := if TextLe(t, rest) then t else rest;
      forall u | u in texts ensures TextLe(least, u) {
        if u != t {
          assert u in texts - {t};
          if TextLe(t, rest) { TextLeTransitive(t, rest, u); }
        }
      }
    }
  }

  /** Compares the collected files with the canonical output; no plan when the document sets differ. */
  method PlanUpdates(files: Files, serialized: Files) returns (plan: Option<seq<Update>>)
    ensures plan.Some? <==> files.Keys == serialized.Keys
    ensures plan.Some? ==> IsPlan(files, serialized, plan.value)
  {
    if files.Keys != serialized.Keys {
      return None;
    }
    var updates: seq<Update> := [];
    var todo := serialized.Keys;
    while todo != {}
      invariant todo <= serialized.Keys
      invariant forall i :: 0 <= i < |updates| ==>
                  && updates[i].logical in serialized && updates[i].logical !in todo
                  && updates[i].bytes == serialized[updates[i].logical] != files[updates[i].logical]
      invariant forall p :: p in serialized && files[p] != serialized[p] ==>
                  p in todo || exists i :: 0 <= i < |updates| && updates[i].logical == p
      invariant forall i, p :: 0 <= i < |updates| && p in todo ==> TextLt(updates[i].logical, p)
      invariant forall i, j :: 0 <= i < j < |updates| ==> TextLt(updates[i].logical, updates[j].logical)
    {
      ghost var least := LeastText(todo);
      var path :| path in todo && forall q :: q in todo ==> TextLe(path, q);
      todo := todo - {path};
      if files[path] != serialized[path] {
        ghost var before := updates;
        updates := updates + [Update(path, serialized[path])];
        assert updates[|before|].logical == path;
        assert forall i :: 0 <= i < |before| ==> updates[i] == before[i];
      }
    }
    return Some(updates);
  }

  /** No operation on this disk ever fails of itself. */
  ghost predicate Faultless(disk: Disk) {
    forall t :: disk.faults(t) == None
  }

  // --- Alias rejection -----------------------------------------------------------------

  /** Two paths are names of one file. */
  ghost predicate Linked(entries: map<Path, Entry>, a: Path, b: Path) {
    a in entries && b in entries && entries[a] == entries[b] && entries[a].File?
  }

  /** No update target shares its file with another observed path. */
  ghost predicate AliasFree(entries: map<Path, Entry>, root: Path, regular: seq<Path>, updates: seq<Update>) {
    forall i, c :: 0 <= i < |updates| && 0 <= c < |regular| && regular[c] != DiskPath(root, updates[i].logical) ==>
      !Linked(entries, DiskPath(root, updates[i].logical), regular[c])
  }

  /** The first target that is linked to another observed path, before anything is opened. */
  method RejectRewriteAliases(disk: Disk, root: Path, regular: seq<Path>, updates: seq<Update>)
    returns (rejected: Option<IoKind>)
    modifies disk`clock
    ensures rejected.None? ==> AliasFree(disk.entries, root, regular, updates)
    ensures Faultless(disk) && AliasFree(disk.entries, root, regular, updates) ==> rejected.None?
    ensures Faultless(disk) && rejected.Some? ==> rejected == Some(SourceChanged)
  {
    for i := 0 to |updates|
      invariant AliasFree(disk.entries, root, regular, updates[..i])
    {
      var target := DiskPath(root, updates[i].logical);
      for c := 0 to |regular|
        invariant forall d :: 0 <= d < c && regular[d] != target ==> !Linked(disk.entries, target, regular[d])
      {
        if regular[c] != target {
          var same := disk.SameFile(target, regular[c]);
          if same.Err? {
            return Some(same.kind);
          }
          if same.value {
            assert Linked(disk.entries, target, regular[c]);
            return Some(SourceChanged);
          }
        }
      }
    }
    assert updates[..|updates|] == updates;
    return None;
  }

  // --- Rewriting -----------------------------------------------------------------------

  datatype RewriteOp = Check | Open | Write | Sync

  datatype Failure = Failure(index: nat, op: RewriteOp, kind: IoKind)

  /** The root and every ancestor are directories and the target is a regular file. */
  ghost predicate TreeFits(entries: map<Path, Entry>, root: Path, logical: string) {
    var parts := Split(logical);
    && (forall n :: 0 <= n < |parts| ==> root + parts[..n] in entries && entries[root + parts[..n]] == Directory)
    && root + parts in entries && entries[root + parts].File?
  }

  /** The target is reached through directories only and still reads as it was collected. */
  ghost predicate Unchanged(entries: map<Path, Entry>, content: Contents, root: Path, originals: Files,
                            logical: string) {
    && TreeFits(entries, root, logical)
    && logical in originals && Reads(entries, content, DiskPath(root, logical)) == Some(originals[logical])
  }

  /** What is wrong with an entry that should be a directory or, at the end, a regular file. */
  function LevelDefect(entries: map<Path, Entry>, path: Path, last: bool): Option<IoKind> {
    if path !in entries then Some(NotFound)
    else match entries[path] {
      case Symlink => Some(SymlinkAtDocumentPath)
      case Directory => if last then Some(NotAFile) else None
      case File(_) => if last then None else Some(NotADirectory)
      case Other => Some(if last then NotAFile else NotADirectory)
    }
  }

  /** Each defect says what stands at the path instead of what should. */
  lemma LevelDefects(entries: map<Path, Entry>, path: Path, last: bool)
    ensures LevelDefect(entries, path, last) == None <==>
            path in entries && if last then entries[path].File? else entries[path] == Directory
    ensures LevelDefect(entries, path, last) == Some(NotFound) <==> path !in entries
    ensures LevelDefect(entries, path, last) == Some(SymlinkAtDocumentPath) <==>
            path in entries && entries[path] == Symlink
    ensures LevelDefect(entries, path, last) == Some(NotADirectory) <==>
            !last && path in entries && (entries[path].File? || entries[path] == Other)
    ensures LevelDefect(entries, path, last) == Some(NotAFile) <==>
            last && path in entries && (entries[path] == Directory || entries[path] == Other)
  {
  }

  /** `kind` is the defect of the first level that has one, or the target changed since collection. */
  ghost predicate Blames(entries: map<Path, Entry>, content: Contents, root: Path, originals: Files, logical: string,
                         kind: IoKind) {
    || (exists n :: BlamesLevel(entries, root, Split(logical), n, kind))
    || (kind == SourceChanged
        && TreeFits(entries, root, logical) && !Unchanged(entries, content, root, originals, logical))
  }

  ghost predicate BlamesLevel(entries: map<Path, Entry>, root: Path, parts: seq<string>, n: nat, kind: IoKind) {
    && n <= |parts|
    && (forall m :: 0 <= m < n ==> root + parts[..m] in entries && entries[root + parts[..m]] == Directory)
    && LevelDefect(entries, root + parts[..n], n == |parts|) == Some(kind)
  }

  method ExpectDirectory(disk: Disk, path: Path) returns (bad: Option<IoKind>)
    modifies disk`clock
    ensures bad.None? ==> path in disk.entries && disk.entries[path] == Directory
    ensures Faultless(disk) ==> bad == LevelDefect(disk.entries, path, false)
  {
    var kind := disk.Metadata(path);
    match kind
    case Err(e) => return Some(e);
    case Ok(DirectoryKind) => return None;
    case Ok(SymlinkKind) => return Some(SymlinkAtDocumentPath);
    case Ok(_) => return Some(NotADirectory);
  }

  /** Rechecks root, ancestors and target, and that the target still reads as collected. */
  method CheckTarget(disk: Disk, root: Path, unicodeRoot: bool, originals: Files, logical: string)
    returns (bad: Option<IoKind>)
    requires disk.Valid()
    modifies disk`clock
    ensures bad.None? ==> unicodeRoot && Unchanged(disk.entries, disk.content, root, originals, logical)
    ensures Faultless(disk) && unicodeRoot && Unchanged(disk.entries, disk.content, root, originals, logical) ==>
              bad.None?
    ensures !unicodeRoot ==> bad == Some(NonUnicodeComponent)
    ensures Faultless(disk) && unicodeRoot && bad.Some? ==>
              Blames(disk.entries, disk.content, root, originals, logical, bad.value)
  {
    if !unicodeRoot {
      return Some(NonUnicodeComponent);
    }
    var parts := Split(logical);
    assert root + parts[..0] == root;
    bad := ExpectDirectory(disk, root);
    if bad.Some? {
      assert Faultless(disk) ==> BlamesLevel(disk.entries, root, parts, 0, bad.value);
      return;
    }
    for index := 1 to |parts|
      invariant forall n :: 0 <= n < index ==>
                  root + parts[..n] in disk.entries && disk.entries[root + parts[..n]] == Directory
    {
      bad := ExpectDirectory(disk, root + parts[..index]);
      if bad.Some? {
        assert Faultless(disk) ==> BlamesLevel(disk.entries, root, parts, index, bad.value);
        return;
      }
    }
    var target := DiskPath(root, logical);
    var kind := disk.Metadata(target);
    assert parts[..|parts|] == parts;
    ghost var defect := LevelDefect(disk.entries, target, true);
    assert defect.Some? ==> BlamesLevel(disk.entries, root, parts, |parts|, defect.value);
    match kind {
      case Err(e) => return Some(e);
      case Ok(FileKind) =>
      case Ok(SymlinkKind) => return Some(SymlinkAtDocumentPath);
      case Ok(_) => return Some(NotAFile);
    }
    var current := disk.ReadFile(target);
    if current.Err? {
      return Some(current.kind);
    }
    if logical !in originals || current.value != originals[logical] {
      return Some(SourceChanged);
    }
    return None;
  }

  ghost predicate NamesFile(entries: map<Path, Entry>, path: Path) {
    path in entries && entries[path].File?
  }

  ghost predicate TargetsAreFiles(entries: map<Path, Entry>, root: Path, updates: seq<Update>, k: nat) {
    k <= |updates| && forall i :: 0 <= i < k ==> NamesFile(entries, DiskPath(root, updates[i].logical))
  }

  ghost function InodeOf(entries: map<Path, Entry>, root: Path, u: Update): Inode
    requires NamesFile(entries, DiskPath(root, u.logical))
  {
    entries[DiskPath(root, u.logical)].inode
  }

  /** The contents after the first `k` updates have been written in full. */
  ghost function Rewritten(entries: map<Path, Entry>, content: Contents, root: Path, updates: seq<Update>,
                           k: nat): Contents
    requires TargetsAreFiles(entries, root, updates, k)
  {
    if k == 0 then content
    else
      var u := updates[k - 1];
      Rewritten(entries, content, root, updates, k - 1)[InodeOf(entries, root, u) := u.bytes]
  }

  /** Only some first part of the bytes was written. */
  ghost predicate Torn(before: Contents, after: Contents, inode: Inode, bytes: Bytes) {
    exists n :: 0 <= n <= |bytes| && after == before[inode := bytes[..n]]
  }

  /** What a failure leaves behind: everything before it rewritten, nothing after it touched. */
  ghost predicate LeftBehind(entries: map<Path, Entry>, before: Contents, after: Contents, root: Path,
                             updates: seq<Update>, f: Failure) {
    var k := f.index;
    && k < |updates| && TargetsAreFiles(entries, root, updates, k)
    && match f.op {
         case Check => after == Rewritten(entries, before, root, updates, k)
         case Open => after == Rewritten(entries, before, root, updates, k)
         case Write =>
           && TargetsAreFiles(entries, root, updates, k + 1)
           && Torn(Rewritten(entries, before, root, updates, k), after, InodeOf(entries, root, updates[k]),
                   updates[k].bytes)
         case Sync =>
           && TargetsAreFiles(entries, root, updates, k + 1)
           && after == Rewritten(entries, before, root, updates, k + 1)
       }
  }

  /** Each target is still as collected when its turn comes. */
  ghost predicate Undisturbed(entries: map<Path, Entry>, content: Contents, root: Path, originals: Files,
                              updates: seq<Update>) {
    forall k :: 0 <= k < |updates| && TargetsAreFiles(entries, root, updates, k) ==>
      Unchanged(entries, Rewritten(entries, content, root, updates, k), root, originals, updates[k].logical)
  }

  /** Rewrites one checked target. */
  method RewriteOne(disk: Disk, root: Path, update: Update) returns (bad: Option<(RewriteOp, IoKind)>)
    requires disk.Valid()
    modifies disk`clock, disk`content
    ensures disk.Valid()
    ensures bad.Some? && bad.value.0 == Open ==> disk.content == old(disk.content)
    ensures bad.None? || bad.value.0 != Open ==> NamesFile(disk.entries, DiskPath(root, update.logical))
    ensures bad.None? || bad.value.0 == Sync ==>
              disk.content == old(disk.content)[InodeOf(disk.entries, root, update) := update.bytes]
    ensures bad.Some? ==> bad.value.0 != Check
    ensures bad.Some? && bad.value.0 == Write ==>
              Torn(old(disk.content), disk.content, InodeOf(disk.entries, root, update), update.bytes)
    ensures Faultless(disk) && NamesFile(disk.entries, DiskPath(root, update.logical)) ==> bad.None?
  {
    ghost var before := disk.content;
    var handle := disk.OpenTruncate(DiskPath(root, update.logical));
    if handle.Err? {
      return Some((Open, handle.kind));
    }
    var inode := handle.value;
    var written := disk.WriteAll(inode, update.bytes);
    if written.Err? {
      ghost var n :| 0 <= n <= |update.bytes| && disk.content == before[inode := []][inode := update.bytes[..n]];
      assert disk.content == before[inode := update.bytes[..n]];
      return Some((Write, written.kind));
    }
    assert disk.content == before[inode := update.bytes];
    var synced := disk.SyncAll();
    if synced.Err? {
      return Some((Sync, synced.kind));
    }
    return None;
  }

  lemma UnchangedIsFile(entries: map<Path, Entry>, content: Contents, root: Path, originals: Files, logical: string)
    requires Unchanged(entries, content, root, originals, logical)
    ensures NamesFile(entries, DiskPath(root, logical))
  {
  }

  /** Rewrites the planned files in order and stops at the first failure. */
  method ExecuteRewrites(disk: Disk, root: Path, unicodeRoot: bool, originals: Files, updates: seq<Update>)
    returns (failed: Option<Failure>)
    requires disk.Valid()
    modifies disk`clock, disk`content
    ensures disk.Valid()
    ensures failed.None? ==> TargetsAreFiles(disk.entries, root, updates, |updates|)
                             && disk.content == Rewritten(disk.entries, old(disk.content), root, updates, |updates|)
    ensures failed.Some? ==> LeftBehind(disk.entries, old(disk.content), disk.content, root, updates, failed.value)
    ensures Faultless(disk) && unicodeRoot ==>
              Undisturbed(disk.entries, old(disk.content), root, originals, updates) ==> failed.None?
  {
    hide TreeFits, DiskPath, Reads, Torn;
    for k := 0 to |updates|
      invariant disk.Valid() && TargetsAreFiles(disk.entries, root, updates, k)
      invariant disk.content == Rewritten(disk.entries, old(disk.content), root, updates, k)
    {
      var bad := CheckTarget(disk, root, unicodeRoot, originals, updates[k].logical);
      if bad.Some? {
        return Some(Failure(k, Check, bad.value));
      }
      UnchangedIsFile(disk.entries, disk.content, root, originals, updates[k].logical);
      var broken := RewriteOne(disk, root, updates[k]);
      if broken.Some? {
        return Some(Failure(k, broken.value.0, broken.value.1));
      }
    }
    return None;
  }

  // --- The whole save ------------------------------------------------------------------

  datatype Outcome =
    | Saved | DocumentSetMismatch | Aliased(kind: IoKind)
    | Stopped(logical: string, op: RewriteOp, kind: IoKind)

  /** What collection saw is still what is on disk: every regular path is a file, and every
      collected document is one of them and reads as collected. */
  ghost predicate Observed(entries: map<Path, Entry>, content: Contents, root: Path, files: Files, regular: seq<Path>) {
    && (forall c :: 0 <= c < |regular| ==> Reads(entries, content, regular[c]).Some?)
    && (forall p :: p in files ==>
          DiskPath(root, p) in regular && Reads(entries, content, DiskPath(root, p)) == Some(files[p]))
  }

  lemma DiskPathIsInjective(root: Path, a: string, b: string)
    requires DiskPath(root, a) == DiskPath(root, b)
    ensures a == b
  {
    assert Split(a) == DiskPath(root, a)[|root|..] && Split(b) == DiskPath(root, b)[|root|..];
    JoinSplit(a);
    JoinSplit(b);
  }

  /** The plan, the alias check and the observation that the rewrite relies on. */
  ghost predicate SafePlan(entries: map<Path, Entry>, content: Contents, root: Path, files: Files, regular: seq<Path>,
                           updates: seq<Update>) {
    && Observed(entries, content, root, files, regular)
    && AliasFree(entries, root, regular, updates)
    && (forall i :: 0 <= i < |updates| ==> updates[i].logical in files)
    && (forall i, j :: 0 <= i < j < |updates| ==> updates[i].logical != updates[j].logical)
  }

  /** Writing one target leaves every other observed path reading as before. */
  lemma WriteIsLocal(entries: map<Path, Entry>, content: Contents, root: Path, files: Files, regular: seq<Path>,
                     updates: seq<Update>,
                     i: nat, now: Contents, bytes: Bytes, q: Path)
    requires SafePlan(entries, content, root, files, regular, updates) && i < |updates| && q in regular
    requires NamesFile(entries, DiskPath(root, updates[i].logical))
    ensures Reads(entries, now[InodeOf(entries, root, updates[i]) := bytes], q) ==
            if q == DiskPath(root, updates[i].logical) then Some(bytes) else Reads(entries, now, q)
  {
  }

  /** After `k` updates an observed path reads its new bytes if it was one of their targets, and
      its old bytes otherwise. */
  lemma {:induction false} RewrittenReads(entries: map<Path, Entry>, content: Contents, root: Path, files: Files,
                                          regular: seq<Path>,
                                          updates: seq<Update>, k: nat, q: Path)
    requires SafePlan(entries, content, root, files, regular, updates)
    requires TargetsAreFiles(entries, root, updates, k) && q in regular
    ensures forall i :: 0 <= i < k && DiskPath(root, updates[i].logical) == q ==>
              Reads(entries, Rewritten(entries, content, root, updates, k), q) == Some(updates[i].bytes)
    ensures (forall i :: 0 <= i < k ==> DiskPath(root, updates[i].logical) != q) ==>
              Reads(entries, Rewritten(entries, content, root, updates, k), q) == Reads(entries, content, q)
    decreases k
  {
    if k > 0 {
      RewrittenReads(entries, content, root, files, regular, updates, k - 1, q);
      var now := Rewritten(entries, content, root, updates, k - 1);
      WriteIsLocal(entries, content, root, files, regular, updates, k - 1, now, updates[k - 1].bytes, q);
      forall i | 0 <= i < k && DiskPath(root, updates[i].logical) == q
        ensures Reads(entries, Rewritten(entries, content, root, updates, k), q) == Some(updates[i].bytes)
      {
        if i < k - 1 && DiskPath(root, updates[k - 1].logical) == q {
          DiskPathIsInjective(root, updates[i].logical, updates[k - 1].logical);
          assert false;
        }
      }
    }
  }

  /** Where a collected document stands after `k` updates. */
  lemma DocumentReads(entries: map<Path, Entry>, content: Contents, root: Path, files: Files, serialized: Files,
                      regular: seq<Path>,
                      updates: seq<Update>, k: nat, p: string)
    requires SafePlan(entries, content, root, files, regular, updates) && IsPlan(files, serialized, updates)
    requires files.Keys == serialized.Keys && TargetsAreFiles(entries, root, updates, k) && p in files
    ensures (forall i :: k <= i < |updates| ==> updates[i].logical != p) ==>
              Reads(entries, Rewritten(entries, content, root, updates, k), DiskPath(root, p)) == Some(serialized[p])
    ensures (forall i :: 0 <= i < k ==> updates[i].logical != p) ==>
              Reads(entries, Rewritten(entries, content, root, updates, k), DiskPath(root, p)) == Some(files[p])
  {
    hide DiskPath, Reads, AliasFree;
    var q := DiskPath(root, p);
    RewrittenReads(entries, content, root, files, regular, updates, k, q);
    if i :| 0 <= i < k && updates[i].logical == p {
      assert DiskPath(root, updates[i].logical) == q;
    } else {
      forall i | 0 <= i < k ensures DiskPath(root, updates[i].logical) != q {
        if DiskPath(root, updates[i].logical) == q {
          DiskPathIsInjective(root, updates[i].logical, p);
          assert false;
        }
      }
    }
  }

  /** The state of one collected document once a save stopped at document `s`. */
  ghost predicate DocumentAfterStop(files: Files, serialized: Files, s: string, op: RewriteOp, p: string,
                                    found: Option<Bytes>)
    requires p in files && p in serialized
  {
    && (TextLt(p, s) ==> found == Some(serialized[p]))
    && (TextLt(s, p) ==> found == Some(files[p]))
    && (p == s && (op == Check || op == Open) ==> found == Some(files[p]))
    && (p == s && op == Sync ==> found == Some(serialized[p]))
    && (p == s && op == Write ==> found.Some? && found.value <= serialized[p])
  }

  /** What each outcome says about the disk. */
  ghost predicate Settled(entries: map<Path, Entry>, before: Contents, after: Contents, root: Path, files: Files,
                          serialized: Files, outcome: Outcome) {
    match outcome
    case DocumentSetMismatch => after == before && files.Keys != serialized.Keys
    case Aliased(_) => after == before
    case Saved =>
      && files.Keys == serialized.Keys
      && forall p :: p in files ==> Reads(entries, after, DiskPath(root, p)) == Some(serialized[p])
    case Stopped(s, op, _) =>
      && files.Keys == serialized.Keys && s in files && files[s] != serialized[s]
      && forall p :: p in files ==>
           DocumentAfterStop(files, serialized, s, op, p, Reads(entries, after, DiskPath(root, p)))
  }

  /** Observed paths that are no collected document read as before. */
  ghost predicate OthersUntouched(entries: map<Path, Entry>, before: Contents, after: Contents, root: Path,
                                  files: Files, regular: seq<Path>) {
    forall c :: 0 <= c < |regular| && (forall p :: p in files ==> DiskPath(root, p) != regular[c]) ==>
      Reads(entries, after, regular[c]) == Reads(entries, before, regular[c])
  }

  lemma StopLeavesDocuments(entries: map<Path, Entry>, before: Contents, after: Contents, root: Path, files: Files,
                            serialized: Files,
                            regular: seq<Path>, updates: seq<Update>, f: Failure, p: string)
    requires SafePlan(entries, before, root, files, regular, updates) && IsPlan(files, serialized, updates)
    requires files.Keys == serialized.Keys && LeftBehind(entries, before, after, root, updates, f) && p in files
    ensures DocumentAfterStop(files, serialized, updates[f.index].logical, f.op, p,
                              Reads(entries, after, DiskPath(root, p)))
  {
    hide DiskPath, AliasFree, Reads;
    var k, s, q := f.index, updates[f.index].logical, DiskPath(root, p);
    assert q in regular;
    DocumentReads(entries, before, root, files, serialized, regular, updates, k, p);
    Position(updates, k, p);
    var now := Rewritten(entries, before, root, updates, k);
    if f.op == Write {
      var n :| 0 <= n <= |updates[k].bytes|
               && after == now[InodeOf(entries, root, updates[k]) := updates[k].bytes[..n]];
      WriteIsLocal(entries, before, root, files, regular, updates, k, now, updates[k].bytes[..n], q);
      OneDocument(root, p, s);
    } else if f.op == Sync {
      WriteIsLocal(entries, before, root, files, regular, updates, k, now, updates[k].bytes, q);
      OneDocument(root, p, s);
    }
  }

  lemma OneDocument(root: Path, p: string, s: string)
    ensures DiskPath(root, p) == DiskPath(root, s) <==> p == s
  {
    if DiskPath(root, p) == DiskPath(root, s) {
      DiskPathIsInjective(root, p, s);
    }
  }

  /** In a plan, documents before the k-th in the order have indices below k, and so on. */
  lemma Position(updates: seq<Update>, k: nat, p: string)
    requires k < |updates| && forall i, j :: 0 <= i < j < |updates| ==> TextLt(updates[i].logical, updates[j].logical)
    ensures TextLt(p, updates[k].logical) ==> forall i :: k <= i < |updates| ==> updates[i].logical != p
    ensures TextLt(updates[k].logical, p) || p == updates[k].logical ==>
              forall i :: 0 <= i < k ==> updates[i].logical != p
  {
    var s := updates[k].logical;
    forall i | k <= i < |updates| && TextLt(p, s) ensures updates[i].logical != p {
      if updates[i].logical == p {
        TextLeAntisymmetric(s, p);
        assert false;
      }
    }
    forall i | 0 <= i < k && (TextLt(s, p) || p == s) ensures updates[i].logical != p {
      if updates[i].logical == p {
        assert TextLt(p, s);
        TextLeAntisymmetric(s, p);
        assert false;
      }
    }
  }

  lemma OthersRead(entries: map<Path, Entry>, before: Contents, root: Path, files: Files, regular: seq<Path>,
                   updates: seq<Update>, k: nat, q: Path)
    requires SafePlan(entries, before, root, files, regular, updates) && TargetsAreFiles(entries, root, updates, k)
    requires q in regular && forall p :: p in files ==> DiskPath(root, p) != q
    ensures Reads(entries, Rewritten(entries, before, root, updates, k), q) == Reads(entries, before, q)
  {
  }

  lemma StopLeavesOther(entries: map<Path, Entry>, before: Contents, after: Contents, root: Path, files: Files,
                        regular: seq<Path>, updates: seq<Update>, f: Failure, q: Path)
    requires SafePlan(entries, before, root, files, regular, updates)
    requires LeftBehind(entries, before, after, root, updates, f)
    requires q in regular && forall p :: p in files ==> DiskPath(root, p) != q
    ensures Reads(entries, after, q) == Reads(entries, before, q)
  {
    hide DiskPath, AliasFree, Reads, Observed;
    var k := f.index;
    var now := Rewritten(entries, before, root, updates, k);
    OthersRead(entries, before, root, files, regular, updates, k, q);
    if f.op == Write {
      var n :| 0 <= n <= |updates[k].bytes|
               && after == now[InodeOf(entries, root, updates[k]) := updates[k].bytes[..n]];
      WriteIsLocal(entries, before, root, files, regular, updates, k, now, updates[k].bytes[..n], q);
    } else if f.op == Sync {
      WriteIsLocal(entries, before, root, files, regular, updates, k, now, updates[k].bytes, q);
    }
  }

  /** With every target still in place and unlinked, each is undisturbed when its turn comes. */
  lemma NothingDisturbs(entries: map<Path, Entry>, content: Contents, root: Path, files: Files, serialized: Files,
                        regular: seq<Path>, updates: seq<Update>)
    requires SafePlan(entries, content, root, files, regular, updates) && IsPlan(files, serialized, updates)
    requires files.Keys == serialized.Keys
    requires forall p :: p in files ==> TreeFits(entries, root, p)
    ensures Undisturbed(entries, content, root, files, updates)
  {
    hide DiskPath, AliasFree, Reads, TreeFits, Observed;
    forall k | 0 <= k < |updates| && TargetsAreFiles(entries, root, updates, k)
      ensures Unchanged(entries, Rewritten(entries, content, root, updates, k), root, files, updates[k].logical)
    {
      DocumentReads(entries, content, root, files, serialized, regular, updates, k, updates[k].logical);
      Position(updates, k, updates[k].logical);
    }
  }

  /** Nothing stands in the way of a save: documents are reached through directories, the document
      sets agree, and no document that changes is linked to another observed path. */
  ghost predicate Unobstructed(entries: map<Path, Entry>, root: Path, files: Files, serialized: Files,
                               regular: seq<Path>) {
    && files.Keys == serialized.Keys
    && (forall p :: p in files ==> TreeFits(entries, root, p))
    && (forall p, c ::
          p in files && files[p] != serialized[p] && 0 <= c < |regular| && regular[c] != DiskPath(root, p) ==>
          !Linked(entries, DiskPath(root, p), regular[c]))
  }

  /** The rewrite part of a save, with its plan. */
  method Rewrite(disk: Disk, root: Path, unicodeRoot: bool, files: Files, serialized: Files, regular: seq<Path>,
                 updates: seq<Update>) returns (outcome: Outcome)
    requires disk.Valid() && SafePlan(disk.entries, disk.content, root, files, regular, updates)
    requires IsPlan(files, serialized, updates) && files.Keys == serialized.Keys
    modifies disk`clock, disk`content
    ensures disk.Valid()
    ensures Settled(disk.entries, old(disk.content), disk.content, root, files, serialized, outcome)
    ensures OthersUntouched(disk.entries, old(disk.content), disk.content, root, files, regular)
    ensures Faultless(disk) && unicodeRoot && Unobstructed(disk.entries, root, files, serialized, regular) ==>
              outcome == Saved
  {
    hide DiskPath, AliasFree, Reads, TreeFits, Observed, Rewritten, LeftBehind, DocumentAfterStop;
    ghost var before := disk.content;
    if Unobstructed(disk.entries, root, files, serialized, regular) {
      NothingDisturbs(disk.entries, before, root, files, serialized, regular, updates);
    }
    var failed := ExecuteRewrites(disk, root, unicodeRoot, files, updates);
    if failed.Some? {
      ghost var f := failed.value;
      forall c | 0 <= c < |regular| && (forall p :: p in files ==> DiskPath(root, p) != regular[c])
        ensures Reads(disk.entries, disk.content, regular[c]) == Reads(disk.entries, before, regular[c])
      {
        StopLeavesOther(disk.entries, before, disk.content, root, files, regular, updates, f, regular[c]);
      }
      FailureIndex(disk.entries, before, disk.content, root, updates, f);
      forall p | p in files
        ensures DocumentAfterStop(files, serialized, updates[f.index].logical, f.op, p,
                                  Reads(disk.entries, disk.content, DiskPath(root, p)))
      {
        StopLeavesDocuments(disk.entries, before, disk.content, root, files, serialized, regular, updates, f, p);
      }
      return Stopped(updates[failed.value.index].logical, failed.value.op, failed.value.kind);
    }
    forall p | p in files ensures Reads(disk.entries, disk.content, DiskPath(root, p)) == Some(serialized[p]) {
      DocumentReads(disk.entries, before, root, files, serialized, regular, updates, |updates|, p);
    }
    forall c | 0 <= c < |regular| && (forall p :: p in files ==> DiskPath(root, p) != regular[c])
      ensures Reads(disk.entries, disk.content, regular[c]) == Reads(disk.entries, before, regular[c])
    {
      OthersRead(disk.entries, before, root, files, regular, updates, |updates|, regular[c]);
    }
    return Saved;
  }

  lemma FailureIndex(entries: map<Path, Entry>, before: Contents, after: Contents, root: Path, updates: seq<Update>,
                     f: Failure)
    requires LeftBehind(entries, before, after, root, updates, f)
    ensures f.index < |updates|
  {
  }

  /** Saves a collected campaign. On success every document reads its serialized bytes; whatever
      happens, documents before a failure are new, those after it are original, the failing one is
      original unless its write had begun, and every other observed path is unchanged. */
  method Save(disk: Disk, root: Path, unicodeRoot: bool, files: Files, serialized: Files, regular: seq<Path>)
    returns (outcome: Outcome)
    requires disk.Valid() && Observed(disk.entries, disk.content, root, files, regular)
    modifies disk`clock, disk`content
    ensures disk.Valid()
    ensures Settled(disk.entries, old(disk.content), disk.content, root, files, serialized, outcome)
    ensures OthersUntouched(disk.entries, old(disk.content), disk.content, root, files, regular)
    ensures Faultless(disk) && unicodeRoot && Unobstructed(disk.entries, root, files, serialized, regular) ==>
              outcome == Saved
  {
    hide DiskPath, Reads, TreeFits, Observed, Rewritten;
    var plan := PlanUpdates(files, serialized);
    if plan.None? {
      return DocumentSetMismatch;
    }
    var rejected := RejectRewriteAliases(disk, root, regular, plan.value);
    if rejected.Some? {
      return Aliased(rejected.value);
    }
    outcome := Rewrite(disk, root, unicodeRoot, files, serialized, regular, plan.value);
  }
}
