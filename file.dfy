/**
 * The filesystem guard of utils/file.js over an in-memory filesystem.
 *
 * The filesystem is a map from paths (sequences of components) to nodes.
 * `FileSystem` is the mutable disk with the node primitives the plugin calls
 * (`fs.access`, `fs.unlink`, `fs.mkdir`, `fs.readdir`, `fs.lstat`, write
 * streams); `CheckAndRemoveFile`, `MkdirIfNotExists`, `DeleteFolderRecursive`,
 * `ReadCurrentDir` and `HandleError` are the guard itself, each proved against
 * a pure function that says what it does to the map.
 */
module FileGuard {
  import opened Wrappers
  import opened Text

  newtype byte = b: int | 0 <= b < 256

  /** A path as the operating system sees it: its non-empty components.
      The empty path is the working directory. */
  type Path = seq<string>

  datatype Node = File(data: seq<byte>) | Dir

  /** The error codes the node primitives raise in this model. */
  datatype Errno = ENOENT | ENOTDIR | EISDIR | EEXIST

  // ---------------------------------------------------------------------------
  // From path strings to paths

  function NonEmptyPieces(ps: seq<string>): (r: seq<string>)
    ensures forall i :: 0 <= i < |r| ==> r[i] != []
  {
    if ps == [] then [] else (if ps[0] == [] then [] else [ps[0]]) + NonEmptyPieces(ps[1..])
  }

  lemma {:induction false} NonEmptyPiecesAppend(a: seq<string>, b: seq<string>)
    ensures NonEmptyPieces(a + b) == NonEmptyPieces(a) + NonEmptyPieces(b)
  {
    if a != [] {
      var head := if a[0] == [] then [] else [a[0]];
      assert (a + b)[0] == a[0];
      assert (a + b)[1..] == a[1..] + b;
      NonEmptyPiecesAppend(a[1..], b);
      calc {
        NonEmptyPieces(a + b);
        head + NonEmptyPieces(a[1..] + b);
        head + (NonEmptyPieces(a[1..]) + NonEmptyPieces(b));
        (head + NonEmptyPieces(a[1..])) + NonEmptyPieces(b);
      }
    } else {
      assert a + b == b;
    }
  }

  /** The path a string names: repeated and trailing `/` are ignored, as the
      operating system does; a leading `/` marks an absolute path. */
  function Components(s: string): Path {
    (if |s| > 0 && s[0] == '/' then ["/"] else []) + NonEmptyPieces(SplitOn(s, '/'))
  }

  /** `${dir}/${name}` names the entry `name` inside `dir`. */
  lemma ComponentsChild(dir: string, name: string)
    requires dir != [] && name != []
    requires forall j :: 0 <= j < |name| ==> name[j] != '/'
    ensures Components(dir + "/" + name) == Components(dir) + [name]
  {
    assert dir + "/" + name == dir + ['/'] + name;
    SplitOnAround(dir, name, '/');
    SplitOnFree(name, '/');
    NonEmptyPiecesAppend(SplitOn(dir, '/'), [name]);
    assert NonEmptyPieces([name]) == [name];
    assert (dir + "/" + name)[0] == dir[0];
  }

  // ---------------------------------------------------------------------------
  // The shape of a filesystem and what the primitives observe

  /** Every proper ancestor of an entry is a directory entry; the working
      directory itself is implicit. */
  ghost predicate Tree(m: map<Path, Node>) {
    && [] !in m
    && forall p, k :: p in m && 0 < k < |p| ==> p[..k] in m && m[p[..k]].Dir?
  }

  /** A directory is at `p`; the working directory is always there. */
  predicate IsDirAt(m: map<Path, Node>, p: Path) {
    if p in m then m[p].Dir? else p == []
  }

  predicate IsFileAt(m: map<Path, Node>, p: Path) {
    p in m && m[p].File?
  }

  /** `fs.existsSync(p)`, and the success of `fs.access(p)`. */
  predicate ExistsAt(m: map<Path, Node>, p: Path) {
    p == [] || p in m
  }

  /** In a tree every proper ancestor of an entry is a directory. */
  lemma AncestorIsDir(m: map<Path, Node>, q: Path, k: nat)
    requires Tree(m) && q in m && k < |q|
    ensures IsDirAt(m, q[..k])
  {
  }

  predicate HasFileAncestor(m: map<Path, Node>, p: Path) {
    exists k :: 0 < k < |p| && IsFileAt(m, p[..k])
  }

  /** The error `fs.access(p)` raises, if any. */
  function AccessError(m: map<Path, Node>, p: Path): (r: Option<Errno>)
    ensures r.None? <==> ExistsAt(m, p)
    ensures r == Some(ENOTDIR) <==> !ExistsAt(m, p) && HasFileAncestor(m, p)
  {
    if ExistsAt(m, p) then None
    else if HasFileAncestor(m, p) then Some(ENOTDIR)
    else Some(ENOENT)
  }

  function Parent(p: Path): Path
    requires p != []
  {
    p[..|p| - 1]
  }

  /** The error opening a write stream on `p` raises, if any. */
  function WriteError(m: map<Path, Node>, p: Path): Option<Errno>
    requires p != []
  {
    if IsDirAt(m, p) then Some(EISDIR)
    else if !IsDirAt(m, Parent(p)) then
      (if ExistsAt(m, Parent(p)) then Some(ENOTDIR) else AccessError(m, Parent(p)))
    else None
  }

  /** The immediate entries of directory `p`. */
  function Children(m: map<Path, Node>, p: Path): set<Path> {
    set q | q in m && |q| == |p| + 1 && q[..|p|] == p
  }

  predicate IsUnder(q: Path, p: Path) {
    |q| > |p| && q[..|p|] == p
  }

  /** Every entry strictly inside `p`. */
  function Under(m: map<Path, Node>, p: Path): set<Path> {
    set q | q in m && IsUnder(q, p)
  }

  // ---------------------------------------------------------------------------
  // The disk

  class FileSystem {
    var entries: map<Path, Node>

    ghost predicate Valid()
      reads this
    {
      Tree(entries)
    }

    constructor (initial: map<Path, Node>)
      requires Tree(initial)
      ensures Valid() && entries == initial
    {
      entries := initial;
    }

    /** `fs.existsSync(p)`. */
    method Exists(p: Path) returns (b: bool)
      ensures b <==> ExistsAt(entries, p)
    {
      b := p == [] || p in entries;
    }

    /** `fs.access(p)`. */
    method Access(p: Path) returns (err: Option<Errno>)
      ensures err == AccessError(entries, p)
    {
      err := AccessError(entries, p);
    }

    /** `fs.lstat(p)`: the node at `p`. */
    method Lstat(p: Path) returns (r: Result<Node, Errno>)
      requires Valid()
      ensures p == [] ==> r == Ok(Dir)
      ensures p != [] && p in entries ==> r == Ok(entries[p])
      ensures !ExistsAt(entries, p) ==> r == Err(AccessError(entries, p).value)
    {
      if p in entries {
        r := Ok(entries[p]);
      } else if p == [] {
        r := Ok(Dir);
      } else {
        r := Err(AccessError(entries, p).value);
      }
    }

    /** `fs.statSync(p).size`; a directory is given size 0. */
    method StatSize(p: Path) returns (r: Result<nat, Errno>)
      requires Valid()
      ensures IsFileAt(entries, p) ==> r == Ok(|entries[p].data|)
      ensures IsDirAt(entries, p) ==> r == Ok(0)
      ensures !ExistsAt(entries, p) ==> r == Err(AccessError(entries, p).value)
    {
      if IsDirAt(entries, p) {
        r := Ok(0);
      } else if p in entries {
        r := Ok(|entries[p].data|);
      } else {
        r := Err(AccessError(entries, p).value);
      }
    }

    /** Reading a whole file through `fs.createReadStream(p)`. */
    method ReadFile(p: Path) returns (r: Result<seq<byte>, Errno>)
      requires Valid()
      ensures IsFileAt(entries, p) ==> r == Ok(entries[p].data)
      ensures IsDirAt(entries, p) ==> r == Err(EISDIR)
      ensures !ExistsAt(entries, p) ==> r == Err(AccessError(entries, p).value)
    {
      if IsDirAt(entries, p) {
        r := Err(EISDIR);
      } else if p in entries {
        r := Ok(entries[p].data);
      } else {
        r := Err(AccessError(entries, p).value);
      }
    }

    /** `fs.unlink(p)` (or `fs.unlinkSync`): removes a file, refuses a directory. */
    method Unlink(p: Path) returns (r: Outcome<Errno>)
      requires Valid()
      modifies this
      ensures Valid()
      ensures IsFileAt(old(entries), p) ==> r == Pass && entries == old(entries) - {p}
      ensures IsDirAt(old(entries), p) ==> r == Fail(EISDIR) && entries == old(entries)
      ensures !ExistsAt(old(entries), p) ==> r == Fail(AccessError(old(entries), p).value) && entries == old(entries)
    {
      if IsDirAt(entries, p) {
        r := Fail(EISDIR);
      } else if p in entries {
        RemoveFileKeepsTree(entries, p);
        entries := entries - {p};
        r := Pass;
      } else {
        r := Fail(AccessError(entries, p).value);
      }
    }

    /** `fs.mkdir(p, { recursive: true })`. */
    method MkdirRecursive(p: Path) returns (r: Outcome<Errno>)
      requires Valid()
      modifies this
      ensures Valid()
      ensures r == MkdirOutcome(old(entries), p)
      ensures entries == if r.Pass? then MadeDirs(old(entries), p) else old(entries)
    {
      r := MkdirOutcome(entries, p);
      if r.Pass? {
        MadeDirsKeepsTree(entries, p);
        entries := MadeDirs(entries, p);
      }
    }

    /** `fs.readdir(p)`: the names of the immediate entries, each once, in no
        particular order. */
    method ReadDir(p: Path) returns (r: Result<seq<string>, Errno>)
      requires Valid()
      ensures r.Ok? <==> IsDirAt(entries, p)
      ensures IsFileAt(entries, p) ==> r == Err(ENOTDIR)
      ensures !ExistsAt(entries, p) ==> r == Err(AccessError(entries, p).value)
      ensures r.Ok? ==> ListsChildren(entries, p, r.value)
    {
      if p in entries && entries[p].File? {
        return Err(ENOTDIR);
      }
      if !(p == [] || p in entries) {
        return Err(AccessError(entries, p).value);
      }
      var pending := Children(entries, p);
      var names: seq<string> := [];
      while pending != {}
        invariant pending <= Children(entries, p)
        invariant |names| + |pending| == |Children(entries, p)|
        invariant forall i, j :: 0 <= i < j < |names| ==> names[i] != names[j]
        invariant forall n :: n in names <==> p + [n] in Children(entries, p) - pending
        decreases pending
      {
        var q :| q in pending;
        assert q == p + [q[|p|]];
        forall n | n in names ensures n != q[|p|] {
          assert p + [n] != q;
        }
        names := names + [q[|p|]];
        pending := pending - {q};
      }
      r := Ok(names);
    }

    /** Opening a write stream on `p` and piping `data` into it (truncating). */
    method WriteFile(p: Path, data: seq<byte>) returns (err: Option<Errno>)
      requires Valid()
      requires p != []
      modifies this
      ensures Valid()
      ensures err == WriteError(old(entries), p)
      ensures entries == if err.None? then old(entries)[p := File(data)] else old(entries)
    {
      err := WriteError(entries, p);
      if err.None? {
        WriteKeepsTree(entries, p, data);
        entries := entries[p := File(data)];
      }
    }

    /** Writing `data` through a stream opened with `{ flags: 'a' }`. */
    method AppendFile(p: Path, data: seq<byte>) returns (err: Option<Errno>)
      requires Valid()
      requires p != []
      modifies this
      ensures Valid()
      ensures err == WriteError(old(entries), p)
      ensures err.None? ==> entries == old(entries)[p := File(FileData(old(entries), p) + data)]
      ensures err.Some? ==> entries == old(entries)
    {
      err := WriteError(entries, p);
      if err.None? {
        WriteKeepsTree(entries, p, FileData(entries, p) + data);
        entries := entries[p := File(FileData(entries, p) + data)];
      }
    }
  }

  /** The contents of the file at `p`, empty when there is none. */
  function FileData(m: map<Path, Node>, p: Path): seq<byte> {
    if IsFileAt(m, p) then m[p].data else []
  }

  /** `names` names each immediate entry of `p` exactly once. */
  ghost predicate ListsChildren(m: map<Path, Node>, p: Path, names: seq<string>) {
    && |names| == |Children(m, p)|
    && (forall i, j :: 0 <= i < j < |names| ==> names[i] != names[j])
    && (forall n :: n in names <==> p + [n] in m)
  }

  // ---------------------------------------------------------------------------
  // Specifications of the guard

  /** What `checkAndRemoveFile(p)` settles with: ENOENT from `access` is
      swallowed, every other error is rethrown. */
  function RemoveOutcome(m: map<Path, Node>, p: Path): (r: Outcome<Errno>)
    ensures r.Pass? <==> IsFileAt(m, p) || AccessError(m, p) == Some(ENOENT)
    ensures r.Fail? ==> r.error != ENOENT
  {
    match AccessError(m, p)
    case Some(e) => if e == ENOENT then Pass else Fail(e)
    case None => if IsDirAt(m, p) then Fail(EISDIR) else Pass
  }

  /** The filesystem after `checkAndRemoveFile(p)`: only a file at `p` goes. */
  function RemovedEntries(m: map<Path, Node>, p: Path): (m': map<Path, Node>)
    ensures RemoveOutcome(m, p).Pass? ==> p !in m'
    ensures RemoveOutcome(m, p).Fail? ==> m' == m
    ensures forall q :: q != p ==> (q in m' <==> q in m)
    ensures forall q :: q in m' ==> m'[q] == m[q]
  {
    if IsFileAt(m, p) then m - {p} else m
  }

  /** What `fs.mkdir(p, { recursive: true })` settles with. */
  function MkdirOutcome(m: map<Path, Node>, p: Path): Outcome<Errno> {
    if HasFileAncestor(m, p) then Fail(ENOTDIR)
    else if IsFileAt(m, p) then Fail(EEXIST)
    else Pass
  }

  /** `p` and every ancestor of `p`. */
  function Prefixes(p: Path): set<Path> {
    set k | 0 < k <= |p| :: p[..k]
  }

  /** The filesystem with `p` and its missing ancestors created as directories. */
  function MadeDirs(m: map<Path, Node>, p: Path): (m': map<Path, Node>)
    ensures forall q :: q in m ==> q in m' && m'[q] == m[q]
    ensures forall k :: 0 < k <= |p| ==> p[..k] in m'
    ensures forall q :: q in m' && q !in m ==> m'[q] == Dir && q in Prefixes(p)
  {
    map q | q in m.Keys + Prefixes(p) :: if q in m then m[q] else Dir
  }

  /** What `mkdirIfNotExists(d)` settles with: only a path that is not there
      is created, and an `access` error other than ENOENT is rethrown. */
  function EnsureDirOutcome(m: map<Path, Node>, d: Path): (r: Outcome<Errno>)
    ensures r.Pass? <==> AccessError(m, d) != Some(ENOTDIR)
  {
    match AccessError(m, d)
    case None => Pass
    case Some(e) => if e == ENOENT then Pass else Fail(e)
  }

  /** The filesystem after `mkdirIfNotExists(d)`. */
  function EnsuredDirs(m: map<Path, Node>, d: Path): map<Path, Node> {
    if AccessError(m, d) == Some(ENOENT) then MadeDirs(m, d) else m
  }

  /** A file strictly inside `p` (what `deleteFolderRecursive(p)` unlinks). */
  predicate Doomed(m: map<Path, Node>, p: Path, q: Path) {
    IsFileAt(m, q) && IsUnder(q, p)
  }

  /** The filesystem after `deleteFolderRecursive(p)`: every file inside `p`
      is gone, directories stay. */
  function ClearedEntries(m: map<Path, Node>, p: Path): map<Path, Node> {
    map q | q in m && !Doomed(m, p, q) :: m[q]
  }

  /** What `fs.readdir(p)` and so `readCurrentDir(p)` settle with. */
  function ListOutcome(m: map<Path, Node>, p: Path): (r: Result<nat, Errno>)
    ensures r.Ok? <==> IsDirAt(m, p)
  {
    if IsDirAt(m, p) then Ok(|Children(m, p)|)
    else if IsFileAt(m, p) then Err(ENOTDIR)
    else Err(AccessError(m, p).value)
  }

  // ---------------------------------------------------------------------------
  // The guard

  /** `handleError(err)`: logs and rethrows, so the caller fails with `err`. */
  function HandleError<T>(err: Errno): (r: Result<T, Errno>)
    ensures r.Err? && r.error == err
  {
    Err(err)
  }

  /** `checkAndRemoveFile(file)`. */
  method CheckAndRemoveFile(fs: FileSystem, file: Path) returns (r: Outcome<Errno>)
    requires fs.Valid()
    modifies fs
    ensures fs.Valid()
    ensures r == RemoveOutcome(old(fs.entries), file)
    ensures fs.entries == RemovedEntries(old(fs.entries), file)
  {
    var accessErr := fs.Access(file);
    if accessErr.Some? {
      if accessErr.value != ENOENT {
        r := Fail(HandleError<bool>(accessErr.value).error);
      } else {
        r := Pass;
      }
      return;
    }
    var unlinked := fs.Unlink(file);
    if unlinked.Fail? && unlinked.error != ENOENT {
      r := Fail(HandleError<bool>(unlinked.error).error);
    } else {
      r := Pass;
    }
  }

  /** `mkdirIfNotExists(dir)`. */
  method MkdirIfNotExists(fs: FileSystem, dir: Path) returns (r: Outcome<Errno>)
    requires fs.Valid()
    modifies fs
    ensures fs.Valid()
    ensures r == EnsureDirOutcome(old(fs.entries), dir)
    ensures fs.entries == EnsuredDirs(old(fs.entries), dir)
  {
    var accessErr := fs.Access(dir);
    if accessErr.None? {
      return Pass;
    }
    if accessErr.value == ENOENT {
      assert !HasFileAncestor(fs.entries, dir) && !IsFileAt(fs.entries, dir);
      r := fs.MkdirRecursive(dir);
    } else {
      r := Fail(HandleError<bool>(accessErr.value).error);
    }
  }

  /** `readCurrentDir(dirPath)`. */
  method ReadCurrentDir(fs: FileSystem, dirPath: Path) returns (r: Result<seq<string>, Errno>)
    requires fs.Valid()
    ensures r.Ok? <==> IsDirAt(fs.entries, dirPath)
    ensures r.Err? ==> Err(r.error) == ListOutcome(fs.entries, dirPath)
    ensures r.Ok? ==> ListsChildren(fs.entries, dirPath, r.value)
  {
    r := fs.ReadDir(dirPath);
    if r.Err? {
      r := HandleError(r.error);
    }
  }

  /**
   * `deleteFolderRecursive(folderPath)`: unlinks every file inside the folder,
   * descending into sub-folders (which stay, emptied), and settles with the
   * number of IMMEDIATE entries listed, not the number of files removed.
   * The source runs the entries concurrently and waits with `allSettled`;
   * the entries touch disjoint subtrees, so they are taken in listing order.
   */
  method DeleteFolderRecursive(fs: FileSystem, folderPath: Path) returns (r: Result<nat, Errno>)
    requires fs.Valid()
    modifies fs
    ensures fs.Valid()
    ensures r == ListOutcome(old(fs.entries), folderPath)
    ensures fs.entries == ClearedEntries(old(fs.entries), folderPath)
    decreases Under(fs.entries, folderPath)
  {
    ghost var m0 := fs.entries;
    var listing := ReadCurrentDir(fs, folderPath);
    if listing.Err? {
      NothingInsideNonDir(m0, folderPath);
      return HandleError(listing.error);
    }
    var files := listing.value;
    var i := 0;
    ghost var done: seq<string> := [];
    while i < |files|
      invariant 0 <= i <= |files|
      invariant done == files[..i]
      invariant fs.Valid()
      invariant fs.entries == ClearedAmong(m0, folderPath, done)
      decreases |files| - i
    {
      var curPath := folderPath + [files[i]];
      assert curPath in m0;
      ClearedAmongFrame(m0, folderPath, done, files[i]);
      var stat := fs.Lstat(curPath);
      if stat.Ok? && stat.value.Dir? {
        SubtreeShrinks(m0, fs.entries, folderPath, curPath);
        var _ := DeleteFolderRecursive(fs, curPath);
        ClearedAmongStepDir(m0, folderPath, done, files[i]);
      } else {
        var _ := fs.Unlink(curPath);
        ClearedAmongStepFile(m0, folderPath, done, files[i]);
      }
      done := done + [files[i]];
      i := i + 1;
    }
    assert done == files;
    ClearedAmongAll(m0, folderPath, files);
    r := Ok(|files|);
  }

  // ---------------------------------------------------------------------------
  // Proof of DeleteFolderRecursive

  /** The filesystem once the entries named in `done` have been processed. */
  function ClearedAmong(m: map<Path, Node>, p: Path, done: seq<string>): map<Path, Node> {
    map q | q in m && !(Doomed(m, p, q) && q[|p|] in done) :: m[q]
  }

  lemma NothingInsideNonDir(m: map<Path, Node>, p: Path)
    requires Tree(m) && !IsDirAt(m, p)
    ensures ClearedEntries(m, p) == m
  {
    forall q | q in m ensures !IsUnder(q, p) {
      if |q| > |p| {
        AncestorIsDir(m, q, |p|);
      }
    }
  }

  lemma ClearedAmongFrame(m: map<Path, Node>, p: Path, done: seq<string>, n: string)
    requires Tree(m) && p + [n] in m && n !in done
    ensures p + [n] in ClearedAmong(m, p, done)
    ensures ClearedAmong(m, p, done)[p + [n]] == m[p + [n]]
  {
    assert (p + [n])[|p|] == n;
  }

  lemma SubtreeShrinks(m0: map<Path, Node>, m: map<Path, Node>, p: Path, c: Path)
    requires m.Keys <= m0.Keys && c in m0 && |c| == |p| + 1 && c[..|p|] == p
    ensures Under(m, c) < Under(m0, p)
  {
    forall q | q in Under(m, c) ensures q in Under(m0, p) {
      assert q[..|p|] == c[..|p|];
    }
    assert c in Under(m0, p) && c !in Under(m, c);
  }

  lemma ClearedAmongStepDir(m: map<Path, Node>, p: Path, done: seq<string>, n: string)
    requires Tree(m) && p + [n] in m && m[p + [n]].Dir? && n !in done
    ensures ClearedEntries(ClearedAmong(m, p, done), p + [n]) == ClearedAmong(m, p, done + [n])
  {
    var c := p + [n];
    var cur := ClearedAmong(m, p, done);
    var lhs := ClearedEntries(cur, c);
    var rhs := ClearedAmong(m, p, done + [n]);
    forall q | q in m
      ensures (q in lhs <==> q in rhs) && (q in lhs ==> lhs[q] == rhs[q])
    {
      if IsUnder(q, c) {
        assert q[..|p|] == p && q[|p|] == n && IsUnder(q, p);
      } else if IsUnder(q, p) && q[|p|] == n {
        assert q[..|p| + 1] == c;
        assert q == c;
      }
    }
    assert lhs.Keys == rhs.Keys;
  }

  lemma ClearedAmongStepFile(m: map<Path, Node>, p: Path, done: seq<string>, n: string)
    requires Tree(m) && p + [n] in m && m[p + [n]].File? && n !in done
    ensures ClearedAmong(m, p, done) - {p + [n]} == ClearedAmong(m, p, done + [n])
  {
    var c := p + [n];
    var lhs := ClearedAmong(m, p, done) - {c};
    var rhs := ClearedAmong(m, p, done + [n]);
    assert c[|p|] == n && IsUnder(c, p);
    forall q | q in m && q != c ensures !(IsUnder(q, p) && q[|p|] == n) {
      if |q| > |p| + 1 {
        AncestorIsDir(m, q, |p| + 1);
        assert q[..|p| + 1] == q[..|p|] + [q[|p|]];
      } else if |q| == |p| + 1 && IsUnder(q, p) {
        assert q == q[..|p|] + [q[|p|]];
      }
    }
    assert lhs.Keys == rhs.Keys;
  }

  lemma ClearedAmongAll(m: map<Path, Node>, p: Path, names: seq<string>)
    requires Tree(m) && ListsChildren(m, p, names)
    ensures ClearedAmong(m, p, names) == ClearedEntries(m, p)
  {
    forall q | q in m && Doomed(m, p, q) ensures q[|p|] in names {
      assert q[..|p| + 1] == p + [q[|p|]];
      if |q| > |p| + 1 {
        AncestorIsDir(m, q, |p| + 1);
      } else {
        assert q == q[..|p| + 1];
      }
    }
  }

  // ---------------------------------------------------------------------------
  // The primitives keep the filesystem a tree

  lemma RemoveFileKeepsTree(m: map<Path, Node>, p: Path)
    requires Tree(m) && IsFileAt(m, p)
    ensures Tree(m - {p})
  {
  }

  lemma MadeDirsKeepsTree(m: map<Path, Node>, p: Path)
    requires Tree(m) && MkdirOutcome(m, p).Pass?
    ensures Tree(MadeDirs(m, p))
  {
    var m' := MadeDirs(m, p);
    forall q, k | q in m' && 0 < k < |q| ensures q[..k] in m' && m'[q[..k]].Dir? {
      if q in m {
        assert m'[q[..k]] == m[q[..k]];
      } else {
        var j :| 0 < j <= |p| && q == p[..j];
        assert q[..k] == p[..k];
        if p[..k] in m {
          assert !IsFileAt(m, p[..k]);
        }
      }
    }
  }

  lemma WriteKeepsTree(m: map<Path, Node>, p: Path, data: seq<byte>)
    requires Tree(m) && p != [] && WriteError(m, p).None?
    ensures Tree(m[p := File(data)])
  {
    var m' := m[p := File(data)];
    forall q, k | q in m' && 0 < k < |q| ensures q[..k] in m' && m'[q[..k]].Dir? {
      if q == p {
        if k < |p| - 1 {
          assert q[..k] == Parent(p)[..k];
        } else {
          assert q[..k] == Parent(p);
        }
      } else {
        assert q[..k] != p || IsDirAt(m, p);
      }
    }
  }

  // ---------------------------------------------------------------------------
  // Properties of the guard

  /** `checkAndRemoveFile` is idempotent: a second call changes nothing and succeeds. */
  lemma RemoveTwiceIsRemoveOnce(m: map<Path, Node>, p: Path)
    requires Tree(m) && RemoveOutcome(m, p).Pass?
    ensures RemovedEntries(RemovedEntries(m, p), p) == RemovedEntries(m, p)
    ensures RemoveOutcome(RemovedEntries(m, p), p).Pass?
  {
    var m' := RemovedEntries(m, p);
    if IsFileAt(m, p) {
      assert !HasFileAncestor(m', p) by {
        forall k | 0 < k < |p| ensures !IsFileAt(m', p[..k]) {
          AncestorIsDir(m, p, k);
        }
      }
    }
  }

  /** On an absent path with no file above it the guard is a no-op that succeeds. */
  lemma RemoveAbsentIsNoop(m: map<Path, Node>, p: Path)
    requires !ExistsAt(m, p) && !HasFileAncestor(m, p)
    ensures RemoveOutcome(m, p) == Pass && RemovedEntries(m, p) == m
  {
  }

  /** After a successful `mkdirIfNotExists(d)`, `d` and all its ancestors exist,
      and a path that was already there is left exactly as it was. */
  lemma EnsureDirEstablishesPath(m: map<Path, Node>, d: Path)
    requires Tree(m) && EnsureDirOutcome(m, d).Pass?
    ensures ExistsAt(EnsuredDirs(m, d), d)
    ensures forall k :: 0 < k < |d| ==> IsDirAt(EnsuredDirs(m, d), d[..k])
    ensures !ExistsAt(m, d) ==> IsDirAt(EnsuredDirs(m, d), d)
    ensures ExistsAt(m, d) ==> EnsuredDirs(m, d) == m
    ensures Tree(EnsuredDirs(m, d))
  {
    if AccessError(m, d) == Some(ENOENT) {
      MadeDirsKeepsTree(m, d);
      var m' := MadeDirs(m, d);
      forall k | 0 < k <= |d| ensures IsDirAt(m', d[..k]) {
        if k < |d| && d[..k] in m {
          assert !IsFileAt(m, d[..k]);
        }
      }
      assert d[..|d|] == d;
    }
  }

  /** `mkdirIfNotExists` is idempotent. */
  lemma EnsureDirTwiceIsOnce(m: map<Path, Node>, d: Path)
    requires Tree(m) && EnsureDirOutcome(m, d).Pass?
    ensures EnsuredDirs(EnsuredDirs(m, d), d) == EnsuredDirs(m, d)
    ensures EnsureDirOutcome(EnsuredDirs(m, d), d).Pass?
  {
    EnsureDirEstablishesPath(m, d);
  }

  /** `deleteFolderRecursive` leaves no file inside the folder, keeps every
      directory, and touches nothing outside the folder. */
  lemma ClearedEntriesShape(m: map<Path, Node>, p: Path)
    ensures forall q :: q in ClearedEntries(m, p) ==> !(IsFileAt(ClearedEntries(m, p), q) && IsUnder(q, p))
    ensures forall q :: q in m && m[q].Dir? ==> q in ClearedEntries(m, p) && ClearedEntries(m, p)[q] == Dir
    ensures forall q :: q in m && !IsUnder(q, p) ==> q in ClearedEntries(m, p) && ClearedEntries(m, p)[q] == m[q]
    ensures forall q :: q in ClearedEntries(m, p) ==> q in m
  {
  }

  /** Clearing a folder twice is clearing it once. */
  lemma ClearTwiceIsOnce(m: map<Path, Node>, p: Path)
    ensures ClearedEntries(ClearedEntries(m, p), p) == ClearedEntries(m, p)
  {
    var c := ClearedEntries(m, p);
    assert ClearedEntries(c, p).Keys == c.Keys;
  }
}
