/**
 * The download engine of apps/RCtools.js: which strategy `downloadVideo`
 * queues, the byte-range partition and the ordered part assembly of
 * `downloadVideoWithMultiThread`, the Aria2 and axel command lines with their
 * existence polling, and the single-thread download.
 *
 * The network is a parameter: the HEAD request's `content-length`, one
 * function answering each ranged GET, the body of a plain GET, and for the
 * accelerators, whether the target exists at each polling tick.
 */
module Download {
  import opened Wrappers
  import opened Text
  import opened FileGuard
  import opened Naming
  import Common
  import Constants

  // ---------------------------------------------------------------------------
  // Strategy dispatch

  datatype Strategy = SingleThread | Aria2 | Axel | MultiRange

  /** The branch `downloadVideo` queues for a thread count and the configured method. */
  function ChooseStrategy(numThreads: int, downloadMethod: int): (s: Strategy)
    ensures s == SingleThread <==> numThreads == 1
    ensures s == Aria2 <==> numThreads != 1 && downloadMethod == 1
    ensures s == Axel <==> numThreads != 1 && downloadMethod == 2
    ensures s == MultiRange <==> numThreads != 1 && downloadMethod != 1 && downloadMethod != 2
  {
    if numThreads == 1 then SingleThread
    else if downloadMethod == 1 then Aria2
    else if downloadMethod == 2 then Axel
    else MultiRange
  }

  /** The configurable methods of the download-method table select: the native
      option the ranged downloader, the Aria2 and axel options their tools;
      one thread always downloads in a single stream. */
  lemma StrategyFollowsMethodTable(numThreads: int, i: int)
    requires 0 <= i < |Constants.BILI_DOWNLOAD_METHOD|
    ensures numThreads == 1 ==> ChooseStrategy(numThreads, Constants.BILI_DOWNLOAD_METHOD[i].value) == SingleThread
    ensures numThreads != 1 ==>
      ChooseStrategy(numThreads, Constants.BILI_DOWNLOAD_METHOD[i].value) == [MultiRange, Aria2, Axel][i]
    ensures numThreads != 1 && i == 1 ==> Contains(Constants.BILI_DOWNLOAD_METHOD[i].name, "Aria2")
    ensures numThreads != 1 && i == 2 ==> Contains(Constants.BILI_DOWNLOAD_METHOD[i].name, "axel")
  {
    Constants.DownloadMethodTableShape();
  }

  // ---------------------------------------------------------------------------
  // The byte-range partition

  /** `bytes=${start}-${end}`: both ends inclusive. */
  datatype ByteRange = ByteRange(start: int, end: int)

  /** `Math.ceil(contentLength / numThreads)`; unused when there is no thread. */
  function PartSize(length: nat, numThreads: int): int {
    if numThreads >= 1 then Common.CeilDiv(length, numThreads) else 0
  }

  /** The range part `i` asks for: parts of `PartSize` bytes, the last one cut
      or stretched to end at the last byte. */
  function RangeOf(length: nat, numThreads: int, i: int): ByteRange {
    var start := i * PartSize(length, numThreads);
    ByteRange(start, if i == numThreads - 1 then length - 1 else start + PartSize(length, numThreads) - 1)
  }

  /** Every range is a non-empty slice of `[0, length - 1]`. */
  predicate Tiles(length: nat, numThreads: int) {
    forall i :: 0 <= i < numThreads ==>
      0 <= RangeOf(length, numThreads, i).start <= RangeOf(length, numThreads, i).end < length
  }

  lemma MulMonotone(a: int, b: int, c: int)
    requires a <= b && c >= 0
    ensures a * c <= b * c
  {
  }

  /** The ranges start at 0, follow each other without gap or overlap, end at
      the last byte, and together ask for at least `length` bytes. */
  lemma PartitionShape(length: nat, numThreads: int)
    requires numThreads >= 1
    ensures RangeOf(length, numThreads, 0).start == 0
    ensures RangeOf(length, numThreads, numThreads - 1).end == length - 1
    ensures forall i :: 0 <= i < numThreads - 1 ==>
      RangeOf(length, numThreads, i).end + 1 == RangeOf(length, numThreads, i + 1).start
    ensures numThreads * PartSize(length, numThreads) >= length
  {
    var ps := PartSize(length, numThreads);
    forall i | 0 <= i < numThreads - 1
      ensures RangeOf(length, numThreads, i).end + 1 == RangeOf(length, numThreads, i + 1).start
    {
      assert (i + 1) * ps == i * ps + ps;
    }
  }

  /** The ranges tile `[0, length - 1]` exactly when the last one starts inside it. */
  lemma TilingCondition(length: nat, numThreads: int)
    requires numThreads >= 1
    ensures Tiles(length, numThreads) <==> (numThreads - 1) * PartSize(length, numThreads) <= length - 1
  {
    var n := numThreads;
    var ps := PartSize(length, n);
    if (n - 1) * ps <= length - 1 {
      assert ps >= 1 by {
        assert ps * n >= length >= 1;
      }
      forall i | 0 <= i < n
        ensures 0 <= RangeOf(length, n, i).start <= RangeOf(length, n, i).end < length
      {
        MulMonotone(0, i, ps);
        if i < n - 1 {
          MulMonotone(i + 1, n - 1, ps);
          assert (i + 1) * ps == i * ps + ps;
        }
      }
    } else {
      assert !(RangeOf(length, n, n - 1).start <= RangeOf(length, n, n - 1).end);
    }
  }

  /** 100 bytes on three threads: `[0,33]`, `[34,67]`, `[68,99]`. */
  lemma PartitionOfHundredOnThree()
    ensures RangeOf(100, 3, 0) == ByteRange(0, 33)
    ensures RangeOf(100, 3, 1) == ByteRange(34, 67)
    ensures RangeOf(100, 3, 2) == ByteRange(68, 99)
    ensures Tiles(100, 3)
  {
    assert PartSize(100, 3) == 34;
    TilingCondition(100, 3);
  }

  /** 5 bytes on four threads: the third range runs past the end and the last is inverted. */
  lemma PartitionOfFiveOnFour()
    ensures RangeOf(5, 4, 2) == ByteRange(4, 5)
    ensures RangeOf(5, 4, 3) == ByteRange(6, 4)
    ensures !Tiles(5, 4)
  {
    assert PartSize(5, 4) == 2;
  }

  // ---------------------------------------------------------------------------
  // The ranged download: specification

  /** The chat directory's download target and part files. */
  function TargetPath(dir: Path): Path {
    dir + [TARGET_NAME]
  }

  function PartPath(dir: Path, i: int): Path {
    dir + [PartName(i)]
  }

  /** How many parts the loop `for (let i = 0; i < numThreads; i++)` starts. */
  function PartCount(numThreads: int): nat {
    if numThreads > 0 then numThreads else 0
  }

  /** What the ranged GETs answer, part by part; `None` where a request fails. */
  function Responses(length: nat, numThreads: int, fetch: ByteRange -> Option<seq<byte>>): (rs: seq<Option<seq<byte>>>)
    ensures |rs| == PartCount(numThreads)
    ensures forall i :: 0 <= i < |rs| ==> rs[i] == fetch(RangeOf(length, numThreads, i))
  {
    seq(PartCount(numThreads), i requires 0 <= i < PartCount(numThreads) => fetch(RangeOf(length, numThreads, i)))
  }

  /** The body answered for part `i`, and the empty body where it failed. */
  function PartData<T>(rs: seq<Option<seq<T>>>, i: int): seq<T>
    requires 0 <= i < |rs|
  {
    match rs[i]
    case Some(data) => data
    case None => []
  }

  /** The bodies of the first `k` parts, in index order. */
  function ConcatParts<T>(rs: seq<Option<seq<T>>>, k: nat): seq<T>
    requires k <= |rs|
  {
    if k == 0 then [] else ConcatParts(rs, k - 1) + PartData(rs, k - 1)
  }

  /** A disk and whether every step so far succeeded. */
  datatype Run = Run(entries: map<Path, Node>, ok: bool)

  /** The disk once the responses of the first `k` parts have been piped to
      their part files: a failed request or write stream marks the run failed,
      the other parts are still written. */
  function PartsWritten(m: map<Path, Node>, dir: Path, rs: seq<Option<seq<byte>>>, k: nat): Run
    requires k <= |rs|
  {
    if k == 0 then Run(m, true)
    else
      var prev := PartsWritten(m, dir, rs, k - 1);
      var part := PartPath(dir, k - 1);
      match rs[k - 1]
      case None => Run(prev.entries, false)
      case Some(data) =>
        if WriteError(prev.entries, part).None? then Run(prev.entries[part := File(data)], prev.ok)
        else Run(prev.entries, false)
  }

  /** One round of the assembly loop: part `i` is read, appended to the open
      target and unlinked. */
  function AppendStep(m: map<Path, Node>, dir: Path, i: int): Run {
    var part := PartPath(dir, i);
    var target := TargetPath(dir);
    if !IsFileAt(m, part) || WriteError(m, target).Some? then Run(m, false)
    else
      var m' := m[target := File(FileData(m, target) + m[part].data)];
      if IsFileAt(m', part) then Run(m' - {part}, true) else Run(m', false)
  }

  /** The disk after the first `k` rounds of the assembly loop; the first
      failure ends the loop. */
  function AppendedParts(m: map<Path, Node>, dir: Path, k: nat): Run {
    if k == 0 then Run(m, true)
    else
      var prev := AppendedParts(m, dir, k - 1);
      if !prev.ok then prev else AppendStep(prev.entries, dir, k - 1)
  }

  /** What `downloadVideoWithMultiThread` settles with: the chat directory, or
      `None` for the `undefined` of an error it caught; and the disk after it. */
  datatype Finish = Finish(result: Option<Path>, entries: map<Path, Node>)

  function MultiThreadOutcome(m: map<Path, Node>, dir: Path, contentLength: Option<nat>, numThreads: int,
                              fetch: ByteRange -> Option<seq<byte>>): Finish
  {
    match contentLength
    case None => Finish(None, m)
    case Some(length) =>
      var rs := Responses(length, numThreads, fetch);
      var written := PartsWritten(m, dir, rs, |rs|);
      if !written.ok then Finish(None, written.entries)
      else AssemblyOutcome(written.entries, dir, |rs|)
  }

  /** Once every part is saved: the target is removed, opened for appending
      and the first `count` parts are moved onto its end. */
  function AssemblyOutcome(m: map<Path, Node>, dir: Path, count: nat): Finish {
    var target := TargetPath(dir);
    if RemoveOutcome(m, target).Fail? then Finish(None, m)
    else
      var cleared := RemovedEntries(m, target);
      if WriteError(cleared, target).Some? then Finish(None, cleared)
      else
        var assembled := AppendedParts(cleared[target := File([])], dir, count);
        Finish(if assembled.ok then Some(dir) else None, assembled.entries)
  }

  // ---------------------------------------------------------------------------
  // The ranged download

  /** `downloadVideoWithMultiThread`: writes each part, waits for all of them,
      then appends the parts to the emptied target in index order, unlinking
      each after it is copied. */
  method DownloadWithMultiThread(fs: FileSystem, dir: Path, contentLength: Option<nat>, numThreads: int,
                                 fetch: ByteRange -> Option<seq<byte>>) returns (r: Option<Path>)
    requires fs.Valid()
    modifies fs
    ensures fs.Valid()
    ensures Finish(r, fs.entries) == MultiThreadOutcome(old(fs.entries), dir, contentLength, numThreads, fetch)
  {
    if contentLength.None? {
      return None;
    }
    var allSaved := WriteParts(fs, dir, contentLength.value, numThreads, fetch);
    if !allSaved {
      return None;
    }
    r := AssembleTarget(fs, dir, PartCount(numThreads));
  }

  /** Step 4 of the ranged download: `checkAndRemoveFile(target)`, a write
      stream with `{ flags: 'a' }`, and the parts appended in order. */
  method AssembleTarget(fs: FileSystem, dir: Path, count: nat) returns (r: Option<Path>)
    requires fs.Valid()
    modifies fs
    ensures fs.Valid()
    ensures Finish(r, fs.entries) == AssemblyOutcome(old(fs.entries), dir, count)
  {
    var target := TargetPath(dir);
    var removed := CheckAndRemoveFile(fs, target);
    if removed.Fail? {
      return None;
    }
    assert FileData(fs.entries, target) == [];
    var writer := fs.AppendFile(target, []);
    if writer.Some? {
      return None;
    }
    assert fs.entries[target] == File([]);
    var assembled := AppendParts(fs, dir, count);
    r := if assembled then Some(dir) else None;
  }

  /** The loop that requests every range and pipes each response into its part file. */
  method WriteParts(fs: FileSystem, dir: Path, length: nat, numThreads: int,
                    fetch: ByteRange -> Option<seq<byte>>) returns (allSaved: bool)
    requires fs.Valid()
    modifies fs
    ensures fs.Valid()
    ensures Run(fs.entries, allSaved)
         == PartsWritten(old(fs.entries), dir, Responses(length, numThreads, fetch), PartCount(numThreads))
  {
    ghost var m0 := fs.entries;
    ghost var rs := Responses(length, numThreads, fetch);
    var partSize := PartSize(length, numThreads);
    allSaved := true;
    var i := 0;
    while i < numThreads
      invariant 0 <= i <= PartCount(numThreads)
      invariant fs.Valid()
      invariant Run(fs.entries, allSaved) == PartsWritten(m0, dir, rs, i)
    {
      var start := i * partSize;
      var end := start + partSize - 1;
      if i == numThreads - 1 {
        end := length - 1;
      }
      var response := fetch(ByteRange(start, end));
      assert response == rs[i] by {
        assert ByteRange(start, end) == RangeOf(length, numThreads, i);
      }
      if response.Some? {
        var err := fs.WriteFile(PartPath(dir, i), response.value);
        if err.Some? {
          allSaved := false;
        }
      } else {
        allSaved := false;
      }
      i := i + 1;
    }
  }

  /** The assembly loop over the part paths, in index order, into the open target. */
  method AppendParts(fs: FileSystem, dir: Path, count: nat) returns (ok: bool)
    requires fs.Valid()
    modifies fs
    ensures fs.Valid()
    ensures Run(fs.entries, ok) == AppendedParts(old(fs.entries), dir, count)
  {
    ghost var m0 := fs.entries;
    var k := 0;
    while k < count
      invariant 0 <= k <= count
      invariant fs.Valid()
      invariant Run(fs.entries, true) == AppendedParts(m0, dir, k)
    {
      var stepOk := AppendPart(fs, dir, k);
      if !stepOk {
        AppendFailureStays(m0, dir, k + 1, count);
        return false;
      }
      k := k + 1;
    }
    ok := true;
  }

  /** One round of the assembly loop: read part `i`, append it to the target
      and unlink it, stopping at the first error. */
  method AppendPart(fs: FileSystem, dir: Path, i: nat) returns (ok: bool)
    requires fs.Valid()
    modifies fs
    ensures fs.Valid()
    ensures Run(fs.entries, ok) == AppendStep(old(fs.entries), dir, i)
  {
    var part, target := PartPath(dir, i), TargetPath(dir);
    AppendStepCases(fs.entries, dir, i);
    var read := fs.ReadFile(part);
    if read.Err? {
      return false;
    }
    var appended := fs.AppendFile(target, read.value);
    if appended.Some? {
      return false;
    }
    var unlinked := fs.Unlink(part);
    ok := unlinked.Pass?;
  }

  /** A round fails exactly when the part cannot be read or the target
      cannot be written; the part is always there to unlink afterwards. */
  lemma AppendStepCases(m: map<Path, Node>, dir: Path, i: int)
    ensures var part, target := PartPath(dir, i), TargetPath(dir);
      AppendStep(m, dir, i)
        == if !IsFileAt(m, part) || WriteError(m, target).Some? then Run(m, false)
           else Run(m[target := File(FileData(m, target) + m[part].data)] - {part}, true)
  {
    PartPathShape(dir, i);
  }

  /** Once a round of the assembly fails, later rounds change nothing. */
  lemma {:induction false} AppendFailureStays(m: map<Path, Node>, dir: Path, k: nat, n: nat)
    requires k <= n && !AppendedParts(m, dir, k).ok
    ensures AppendedParts(m, dir, n) == AppendedParts(m, dir, k)
    decreases n - k
  {
    if k < n {
      AppendFailureStays(m, dir, k + 1, n);
    }
  }

  // ---------------------------------------------------------------------------
  // Properties of the ranged download

  /** The part paths of the first `k` parts. */
  function PartPaths(dir: Path, k: nat): set<Path> {
    if k == 0 then {} else PartPaths(dir, k - 1) + {PartPath(dir, k - 1)}
  }

  /** `e` agrees with `m` on every path outside `changed`. */
  ghost predicate SameOutside(m: map<Path, Node>, e: map<Path, Node>, changed: set<Path>) {
    forall q :: q !in changed ==> (q in e <==> q in m) && (q in e ==> e[q] == m[q])
  }

  lemma PartPathFacts(dir: Path, i: int, k: nat)
    ensures PartPath(dir, i) != TargetPath(dir)
    ensures i < 0 || i >= k ==> PartPath(dir, i) !in PartPaths(dir, k)
    ensures TargetPath(dir) !in PartPaths(dir, k)
    ensures Parent(PartPath(dir, i)) == dir && Parent(TargetPath(dir)) == dir
  {
    PartPathShape(dir, i);
    PartPathsExclude(dir, i, k);
  }

  /** A part file and the target are distinct children of `dir`. */
  lemma PartPathShape(dir: Path, i: int)
    ensures PartPath(dir, i) != TargetPath(dir)
    ensures Parent(PartPath(dir, i)) == dir && Parent(TargetPath(dir)) == dir
  {
    PartNamesDistinct(i, i);
    assert PartPath(dir, i)[|dir|] == PartName(i);
  }

  lemma {:induction false} PartPathsExclude(dir: Path, i: int, k: nat)
    ensures i < 0 || i >= k ==> PartPath(dir, i) !in PartPaths(dir, k)
    ensures TargetPath(dir) !in PartPaths(dir, k)
  {
    if k > 0 {
      PartPathsExclude(dir, i, k - 1);
      PartPathShape(dir, k - 1);
      if i < 0 || i >= k {
        PartPathsDistinct(dir, i, k - 1);
      }
    }
  }

  /** Distinct indices name distinct part files. */
  lemma PartPathsDistinct(dir: Path, i: int, j: int)
    requires i != j
    ensures PartPath(dir, i) != PartPath(dir, j)
  {
    PartNamesDistinct(i, j);
    assert PartPath(dir, i)[|dir|] == PartName(i);
    assert PartPath(dir, j)[|dir|] == PartName(j);
  }

  /** The conditions under which every primitive of the ranged download succeeds:
      the chat directory is there, and neither the target nor a part file is a directory. */
  ghost predicate Ready(m: map<Path, Node>, dir: Path, n: nat) {
    && Tree(m)
    && IsDirAt(m, dir)
    && !IsDirAt(m, TargetPath(dir))
    && forall i :: 0 <= i < n ==> !IsDirAt(m, PartPath(dir, i))
  }

  /** Paths of a directory's entries are longer than the directory's own ancestors. */
  lemma {:induction false} DirOutsideParts(dir: Path, k: nat)
    ensures forall q :: q in PartPaths(dir, k) ==> |q| == |dir| + 1
  {
    if k > 0 {
      DirOutsideParts(dir, k - 1);
    }
  }

  /** Changing one more path widens the set of changed paths by that path. */
  lemma SameOutsideUpdate(m: map<Path, Node>, e: map<Path, Node>, changed: set<Path>, p: Path, v: Node)
    requires SameOutside(m, e, changed)
    ensures SameOutside(m, e[p := v], changed + {p})
  {
  }

  /** Writing the parts changes nothing but the part files. */
  lemma PartsWrittenFrame(m: map<Path, Node>, dir: Path, rs: seq<Option<seq<byte>>>, k: nat)
    requires k <= |rs|
    ensures SameOutside(m, PartsWritten(m, dir, rs, k).entries, PartPaths(dir, k))
  {
    PartPathsContain(dir, k);
    PartsWrittenWithin(m, dir, rs, k, PartPaths(dir, k));
  }

  lemma {:induction false} PartsWrittenWithin(m: map<Path, Node>, dir: Path, rs: seq<Option<seq<byte>>>, k: nat,
                                              changed: set<Path>)
    requires k <= |rs|
    requires forall i :: 0 <= i < k ==> PartPath(dir, i) in changed
    ensures SameOutside(m, PartsWritten(m, dir, rs, k).entries, changed)
  {
    if k > 0 {
      PartsWrittenWithin(m, dir, rs, k - 1, changed);
      var prev := PartsWritten(m, dir, rs, k - 1).entries;
      var part := PartPath(dir, k - 1);
      var v := File(PartData(rs, k - 1));
      PartsWrittenStepEntries(m, dir, rs, k);
      SameOutsideUpdateInside(m, prev, changed, part, v);
    }
  }

  /** Round `k - 1` of the writing loop either saves part `k - 1` or leaves the disk alone. */
  lemma PartsWrittenStepEntries(m: map<Path, Node>, dir: Path, rs: seq<Option<seq<byte>>>, k: nat)
    requires 0 < k <= |rs|
    ensures var prev := PartsWritten(m, dir, rs, k - 1).entries;
      || PartsWritten(m, dir, rs, k).entries == prev
      || PartsWritten(m, dir, rs, k).entries == prev[PartPath(dir, k - 1) := File(PartData(rs, k - 1))]
  {
  }

  lemma PartPathsContain(dir: Path, k: nat)
    ensures forall i :: 0 <= i < k ==> PartPath(dir, i) in PartPaths(dir, k)
  {
    forall i | 0 <= i < k ensures PartPath(dir, i) in PartPaths(dir, k) {
      PartPathIn(dir, i, k);
    }
  }

  lemma {:induction false} PartPathIn(dir: Path, i: nat, k: nat)
    requires i < k
    ensures PartPath(dir, i) in PartPaths(dir, k)
  {
    var p, prev := PartPath(dir, i), PartPaths(dir, k - 1);
    assert PartPaths(dir, k) == prev + {PartPath(dir, k - 1)};
    if i < k - 1 {
      PartPathIn(dir, i, k - 1);
      assert p in prev;
    }
  }

  /** Changing a path already counted as changed keeps the bound. */
  lemma SameOutsideUpdateInside(m: map<Path, Node>, e: map<Path, Node>, changed: set<Path>, p: Path, v: Node)
    requires SameOutside(m, e, changed) && p in changed
    ensures SameOutside(m, e[p := v], changed)
  {
  }

  /** With every response delivered, part `i` holds its response for each `i < k`. */
  lemma {:induction false} PartsWrittenAll(m: map<Path, Node>, dir: Path, rs: seq<Option<seq<byte>>>, k: nat)
    requires k <= |rs| && Ready(m, dir, |rs|)
    requires forall i :: 0 <= i < k ==> rs[i].Some?
    ensures PartsWritten(m, dir, rs, k).ok
    ensures Tree(PartsWritten(m, dir, rs, k).entries)
    ensures forall i :: 0 <= i < k ==>
      PartPath(dir, i) in PartsWritten(m, dir, rs, k).entries &&
      PartsWritten(m, dir, rs, k).entries[PartPath(dir, i)] == File(PartData(rs, i))
  {
    if k > 0 {
      PartsWrittenAll(m, dir, rs, k - 1);
      var prev := PartsWritten(m, dir, rs, k - 1).entries;
      var part := PartPath(dir, k - 1);
      PartStillWritable(m, dir, rs, k - 1);
      WriteKeepsTree(prev, part, PartData(rs, k - 1));
      PartsWrittenStep(m, dir, rs, k);
      PartsStayWritten(prev, dir, rs, k - 1);
    }
  }

  /** The earlier rounds leave the file of part `k` writable. */
  lemma PartStillWritable(m: map<Path, Node>, dir: Path, rs: seq<Option<seq<byte>>>, k: nat)
    requires k < |rs| && Ready(m, dir, |rs|)
    ensures WriteError(PartsWritten(m, dir, rs, k).entries, PartPath(dir, k)).None?
  {
    PartsWrittenFrame(m, dir, rs, k);
    PartPathFacts(dir, k, k);
    DirOutsideParts(dir, k);
  }

  /** A delivered part whose file can be written is saved over the earlier disk. */
  lemma PartsWrittenStep(m: map<Path, Node>, dir: Path, rs: seq<Option<seq<byte>>>, k: nat)
    requires 0 < k <= |rs| && rs[k - 1].Some? && PartsWritten(m, dir, rs, k - 1).ok
    requires WriteError(PartsWritten(m, dir, rs, k - 1).entries, PartPath(dir, k - 1)).None?
    ensures PartsWritten(m, dir, rs, k)
      == Run(PartsWritten(m, dir, rs, k - 1).entries[PartPath(dir, k - 1) := File(PartData(rs, k - 1))], true)
  {
  }

  /** Writing part `j` leaves the earlier parts as they were. */
  lemma PartsStayWritten(e: map<Path, Node>, dir: Path, rs: seq<Option<seq<byte>>>, j: nat)
    requires j < |rs|
    requires forall i :: 0 <= i < j ==> PartPath(dir, i) in e && e[PartPath(dir, i)] == File(PartData(rs, i))
    ensures forall i :: 0 <= i <= j ==>
      PartPath(dir, i) in e[PartPath(dir, j) := File(PartData(rs, j))] &&
      e[PartPath(dir, j) := File(PartData(rs, j))][PartPath(dir, i)] == File(PartData(rs, i))
  {
    forall i | 0 <= i < j
      ensures PartPath(dir, i) != PartPath(dir, j)
    {
      PartPathsDistinct(dir, i, j);
    }
  }

  /** Round `j` of the assembly, when the target is a file and part `j` is
      there: the part's bytes go onto the end of the target and the part is unlinked. */
  lemma AppendPartStep(e: map<Path, Node>, dir: Path, j: nat)
    requires Tree(e) && IsDirAt(e, dir)
    requires TargetPath(dir) in e && e[TargetPath(dir)].File?
    requires PartPath(dir, j) in e && e[PartPath(dir, j)].File?
    ensures AppendStep(e, dir, j).ok
    ensures AppendStep(e, dir, j).entries
      == e[TargetPath(dir) := File(e[TargetPath(dir)].data + e[PartPath(dir, j)].data)] - {PartPath(dir, j)}
    ensures Tree(AppendStep(e, dir, j).entries)
  {
    var part := PartPath(dir, j);
    var target := TargetPath(dir);
    assert part != target && Parent(target) == dir by {
      PartPathFacts(dir, j, j);
    }
    assert WriteError(e, target).None?;
    var m' := e[target := File(FileData(e, target) + e[part].data)];
    WriteKeepsTree(e, target, FileData(e, target) + e[part].data);
    RemoveFileKeepsTree(m', part);
    assert AppendStep(e, dir, j) == Run(m' - {part}, true);
  }

  /** What round `j` leaves: the target grown, part `j` gone, the other parts
      and the directory as they were. */
  lemma AppendKeeps(e: map<Path, Node>, dir: Path, rs: seq<Option<seq<byte>>>, j: nat, grown: seq<byte>)
    requires j < |rs| && IsDirAt(e, dir)
    requires forall i :: 0 <= i < j ==> PartPath(dir, i) !in e
    requires forall i :: j <= i < |rs| ==> PartPath(dir, i) in e && e[PartPath(dir, i)] == File(PartData(rs, i))
    ensures var e' := e[TargetPath(dir) := File(grown)] - {PartPath(dir, j)};
      && IsDirAt(e', dir)
      && TargetPath(dir) in e' && e'[TargetPath(dir)] == File(grown)
      && (forall i :: 0 <= i < j + 1 ==> PartPath(dir, i) !in e')
      && (forall i :: j + 1 <= i < |rs| ==> PartPath(dir, i) in e' && e'[PartPath(dir, i)] == File(PartData(rs, i)))
  {
    forall i | 0 <= i < |rs|
      ensures PartPath(dir, i) != TargetPath(dir)
      ensures i != j ==> PartPath(dir, i) != PartPath(dir, j)
    {
      PartPathFacts(dir, i, 0);
      if i != j {
        PartPathsDistinct(dir, i, j);
      }
    }
  }

  /** A larger set of changed paths still bounds the change. */
  lemma SameOutsideWiden(m: map<Path, Node>, e: map<Path, Node>, changed: set<Path>, p: Path)
    requires SameOutside(m, e, changed)
    ensures SameOutside(m, e, changed + {p})
  {
  }

  /** Removing one more path widens the set of changed paths by that path. */
  lemma SameOutsideRemove(m: map<Path, Node>, e: map<Path, Node>, changed: set<Path>, p: Path)
    requires SameOutside(m, e, changed)
    ensures SameOutside(m, e - {p}, changed + {p})
  {
  }

  /** The first `j + 1` part paths are the first `j` and part `j`. */
  lemma PartPathsGrow(dir: Path, j: nat)
    ensures PartPaths(dir, j + 1) == PartPaths(dir, j) + {PartPath(dir, j)}
  {
  }

  /** The assembly changes nothing but the target and the parts it moves. */
  lemma {:induction false} AppendedPartsFrame(m3: map<Path, Node>, dir: Path, k: nat)
    ensures SameOutside(m3, AppendedParts(m3, dir, k).entries, PartPaths(dir, k) + {TargetPath(dir)})
  {
    if k > 0 {
      AppendedPartsFrame(m3, dir, k - 1);
      var prev := AppendedParts(m3, dir, k - 1);
      var part := PartPath(dir, k - 1);
      var target := TargetPath(dir);
      var changed := PartPaths(dir, k - 1) + {target};
      assert changed + {part} == PartPaths(dir, k) + {target} by {
        PartPathsGrow(dir, k - 1);
      }
      if prev.ok {
        AppendStepFrame(m3, prev.entries, dir, k - 1, changed);
      } else {
        SameOutsideWiden(m3, prev.entries, changed, part);
      }
    }
  }

  /** One round changes nothing but the target and the part it moves. */
  lemma AppendStepFrame(m: map<Path, Node>, e: map<Path, Node>, dir: Path, i: int, changed: set<Path>)
    requires SameOutside(m, e, changed) && TargetPath(dir) in changed
    ensures SameOutside(m, AppendStep(e, dir, i).entries, changed + {PartPath(dir, i)})
  {
    var part := PartPath(dir, i);
    var target := TargetPath(dir);
    if !IsFileAt(e, part) || WriteError(e, target).Some? {
      SameOutsideWiden(m, e, changed, part);
    } else {
      var e' := e[target := File(FileData(e, target) + e[part].data)];
      SameOutsideUpdateInside(m, e, changed, target, e'[target]);
      PartPathShape(dir, i);
      assert IsFileAt(e', part);
      SameOutsideRemove(m, e', changed, part);
    }
  }

  /** With the target open, round `i` moves part `i` onto the end of the target. */
  lemma {:induction false} AppendedPartsAll(m3: map<Path, Node>, dir: Path, rs: seq<Option<seq<byte>>>, k: nat)
    requires k <= |rs| && Tree(m3) && IsDirAt(m3, dir)
    requires TargetPath(dir) in m3 && m3[TargetPath(dir)] == File([])
    requires forall i :: 0 <= i < |rs| ==> PartPath(dir, i) in m3 && m3[PartPath(dir, i)] == File(PartData(rs, i))
    ensures var e := AppendedParts(m3, dir, k);
      && e.ok && Tree(e.entries) && IsDirAt(e.entries, dir)
      && TargetPath(dir) in e.entries && e.entries[TargetPath(dir)] == File(ConcatParts(rs, k))
      && (forall i :: 0 <= i < k ==> PartPath(dir, i) !in e.entries)
      && (forall i :: k <= i < |rs| ==> PartPath(dir, i) in e.entries && e.entries[PartPath(dir, i)] == File(PartData(rs, i)))
  {
    if k > 0 {
      AppendedPartsAll(m3, dir, rs, k - 1);
      var e := AppendedParts(m3, dir, k - 1).entries;
      AppendPartStep(e, dir, k - 1);
      assert AppendedParts(m3, dir, k) == AppendStep(e, dir, k - 1);
      assert e[TargetPath(dir)].data + e[PartPath(dir, k - 1)].data == ConcatParts(rs, k);
      AppendKeeps(e, dir, rs, k - 1, ConcatParts(rs, k));
    } else {
      assert AppendedParts(m3, dir, 0).entries == m3;
    }
  }

  /** The target is cleared and reopened empty beside the saved parts: only
      the target changes. */
  lemma TargetReopened(m1: map<Path, Node>, dir: Path, rs: seq<Option<seq<byte>>>)
    requires Tree(m1) && IsDirAt(m1, dir) && !IsDirAt(m1, TargetPath(dir))
    requires forall i :: 0 <= i < |rs| ==> PartPath(dir, i) in m1 && m1[PartPath(dir, i)] == File(PartData(rs, i))
    ensures RemoveOutcome(m1, TargetPath(dir)).Pass?
    ensures WriteError(RemovedEntries(m1, TargetPath(dir)), TargetPath(dir)).None?
    ensures var m3 := RemovedEntries(m1, TargetPath(dir))[TargetPath(dir) := File([])];
      && Tree(m3) && IsDirAt(m3, dir)
      && (forall i :: 0 <= i < |rs| ==> PartPath(dir, i) in m3 && m3[PartPath(dir, i)] == File(PartData(rs, i)))
      && SameOutside(m1, m3, {TargetPath(dir)})
  {
    var target := TargetPath(dir);
    assert !HasFileAncestor(m1, target) by {
      forall k | 0 < k < |target| ensures !IsFileAt(m1, target[..k]) {
        if k < |dir| {
          AncestorIsDir(m1, dir, k);
          assert target[..k] == dir[..k];
        } else {
          assert target[..k] == dir;
        }
      }
    }
    var m2 := RemovedEntries(m1, target);
    assert target !in m2;
    var m3 := m2[target := File([])];
    assert Tree(m3) by {
      if IsFileAt(m1, target) {
        RemoveFileKeepsTree(m1, target);
      }
      PartPathFacts(dir, 0, 0);
      WriteKeepsTree(m2, target, []);
    }
    forall i | 0 <= i < |rs|
      ensures PartPath(dir, i) in m3 && m3[PartPath(dir, i)] == File(PartData(rs, i))
    {
      PartPathFacts(dir, i, 0);
    }
  }

  /** Changes made in two steps stay within the larger set of changed paths. */
  lemma SameOutsideCompose(a: map<Path, Node>, b: map<Path, Node>, c: map<Path, Node>, x: set<Path>, y: set<Path>)
    requires SameOutside(a, b, x) && SameOutside(b, c, y) && x <= y
    ensures SameOutside(a, c, y)
  {
  }

  /** The assembly over saved parts: the target ends up holding them in index
      order and the parts are gone. */
  lemma AssembledFromSaved(m1: map<Path, Node>, dir: Path, rs: seq<Option<seq<byte>>>)
    requires Tree(m1) && IsDirAt(m1, dir) && !IsDirAt(m1, TargetPath(dir))
    requires forall i :: 0 <= i < |rs| ==> PartPath(dir, i) in m1 && m1[PartPath(dir, i)] == File(PartData(rs, i))
    ensures var f := AssemblyOutcome(m1, dir, |rs|);
      && f.result == Some(dir)
      && TargetPath(dir) in f.entries
      && f.entries[TargetPath(dir)] == File(ConcatParts(rs, |rs|))
      && (forall i :: 0 <= i < |rs| ==> PartPath(dir, i) !in f.entries)
  {
    var target := TargetPath(dir);
    TargetReopened(m1, dir, rs);
    var m3 := RemovedEntries(m1, target)[target := File([])];
    AppendedPartsAll(m3, dir, rs, |rs|);
    assert AssemblyOutcome(m1, dir, |rs|) == Finish(Some(dir), AppendedParts(m3, dir, |rs|).entries);
  }

  /** The assembly changes nothing but the target and the part files, whatever happens. */
  lemma AssemblyFrame(m1: map<Path, Node>, dir: Path, count: nat)
    ensures SameOutside(m1, AssemblyOutcome(m1, dir, count).entries, PartPaths(dir, count) + {TargetPath(dir)})
  {
    var target := TargetPath(dir);
    var changed := PartPaths(dir, count) + {target};
    if RemoveOutcome(m1, target).Pass? {
      var cleared := RemovedEntries(m1, target);
      assert SameOutside(m1, cleared, {target});
      if WriteError(cleared, target).None? {
        var m3 := cleared[target := File([])];
        SameOutsideUpdateInside(m1, cleared, {target}, target, File([]));
        AppendedPartsFrame(m3, dir, count);
        SameOutsideCompose(m1, m3, AppendedParts(m3, dir, count).entries, {target}, changed);
      } else {
        SameOutsideWiden(m1, cleared, {target}, target);
        SameOutsideCompose(m1, cleared, cleared, {target}, changed);
      }
    }
  }

  /** The ranged download over given responses: when every response arrives,
      the target ends up holding them in index order and the parts are gone. */
  lemma AssembledFromResponses(m: map<Path, Node>, dir: Path, rs: seq<Option<seq<byte>>>)
    requires Ready(m, dir, |rs|)
    requires forall i :: 0 <= i < |rs| ==> rs[i].Some?
    ensures var written := PartsWritten(m, dir, rs, |rs|);
      var f := AssemblyOutcome(written.entries, dir, |rs|);
      && written.ok
      && f.result == Some(dir)
      && TargetPath(dir) in f.entries
      && f.entries[TargetPath(dir)] == File(ConcatParts(rs, |rs|))
      && (forall i :: 0 <= i < |rs| ==> PartPath(dir, i) !in f.entries)
      && SameOutside(m, f.entries, PartPaths(dir, |rs|) + {TargetPath(dir)})
  {
    var n := |rs|;
    var target := TargetPath(dir);
    PartsWrittenAll(m, dir, rs, n);
    var m1 := PartsWritten(m, dir, rs, n).entries;
    assert IsDirAt(m1, dir) && !IsDirAt(m1, target) && SameOutside(m, m1, PartPaths(dir, n)) by {
      PartsWrittenFrame(m, dir, rs, n);
      PartPathFacts(dir, 0, n);
      DirOutsideParts(dir, n);
    }
    AssembledFromSaved(m1, dir, rs);
    AssemblyFrame(m1, dir, n);
    SameOutsideCompose(m, m1, AssemblyOutcome(m1, dir, n).entries, PartPaths(dir, n), PartPaths(dir, n) + {target});
  }

  /** When the directory is ready and every ranged request answers, the ranged
      download settles with the chat directory, the target holds the responses
      concatenated in index order, every part file is gone, and no other path changed. */
  lemma MultiThreadAssembles(m: map<Path, Node>, dir: Path, length: nat, numThreads: int,
                             fetch: ByteRange -> Option<seq<byte>>)
    requires Ready(m, dir, PartCount(numThreads))
    requires forall i :: 0 <= i < PartCount(numThreads) ==> fetch(RangeOf(length, numThreads, i)).Some?
    ensures MultiThreadOutcome(m, dir, Some(length), numThreads, fetch).result == Some(dir)
    ensures TargetPath(dir) in MultiThreadOutcome(m, dir, Some(length), numThreads, fetch).entries
    ensures MultiThreadOutcome(m, dir, Some(length), numThreads, fetch).entries[TargetPath(dir)]
      == File(ConcatParts(Responses(length, numThreads, fetch), PartCount(numThreads)))
    ensures forall i :: 0 <= i < PartCount(numThreads) ==>
      PartPath(dir, i) !in MultiThreadOutcome(m, dir, Some(length), numThreads, fetch).entries
    ensures SameOutside(m, MultiThreadOutcome(m, dir, Some(length), numThreads, fetch).entries,
                        PartPaths(dir, PartCount(numThreads)) + {TargetPath(dir)})
  {
    var rs := Responses(length, numThreads, fetch);
    AssembledFromResponses(m, dir, rs);
  }

  /** An honest server answers each range with that slice of the resource. */
  ghost predicate Serves(resource: seq<byte>, numThreads: int, fetch: ByteRange -> Option<seq<byte>>) {
    forall i :: 0 <= i < numThreads ==>
      var r := RangeOf(|resource|, numThreads, i);
      0 <= r.start <= r.end < |resource| && fetch(r) == Some(resource[r.start..r.end + 1])
  }

  /** Where each part starts, followed by the length: part `i` covers
      `[bounds[i], bounds[i + 1])`. */
  function Bounds(length: nat, numThreads: int): (b: seq<int>)
    ensures |b| == PartCount(numThreads) + 1
    ensures forall i :: 0 <= i < PartCount(numThreads) ==> b[i] == RangeOf(length, numThreads, i).start
    ensures b[PartCount(numThreads)] == length
  {
    seq(PartCount(numThreads) + 1, i requires 0 <= i <= PartCount(numThreads) =>
      if i < PartCount(numThreads) then RangeOf(length, numThreads, i).start else length)
  }

  /** Response `i` is the slice `[bounds[i], bounds[i + 1])` of the resource. */
  ghost predicate SlicesOf<T>(resource: seq<T>, rs: seq<Option<seq<T>>>, bounds: seq<int>) {
    && |bounds| == |rs| + 1
    && forall i {:trigger PartData(rs, i)} :: 0 <= i < |rs| ==>
      0 <= bounds[i] <= bounds[i + 1] <= |resource| && PartData(rs, i) == resource[bounds[i]..bounds[i + 1]]
  }

  /** Consecutive ranges meet: range `i` ends just before range `i + 1` starts. */
  lemma RangesAdjacent(length: nat, numThreads: int, i: int)
    requires numThreads >= 1 && 0 <= i < numThreads - 1
    ensures RangeOf(length, numThreads, i).end + 1 == RangeOf(length, numThreads, i + 1).start
  {
    var ps := PartSize(length, numThreads);
    assert (i + 1) * ps == i * ps + ps;
  }

  /** What an honest server answers is, part by part, the slices between the bounds. */
  lemma ServedSlices(resource: seq<byte>, numThreads: int, fetch: ByteRange -> Option<seq<byte>>)
    requires Serves(resource, numThreads, fetch)
    ensures SlicesOf(resource, Responses(|resource|, numThreads, fetch), Bounds(|resource|, numThreads))
  {
    var rs := Responses(|resource|, numThreads, fetch);
    var b := Bounds(|resource|, numThreads);
    forall i {:trigger PartData(rs, i)} | 0 <= i < |rs|
      ensures 0 <= b[i] <= b[i + 1] <= |resource| && PartData(rs, i) == resource[b[i]..b[i + 1]]
    {
      assert b[i + 1] == RangeOf(|resource|, numThreads, i).end + 1 by {
        if i < |rs| - 1 {
          RangesAdjacent(|resource|, numThreads, i);
        }
      }
    }
  }

  /** The same, one response at a time: the first `k` responses are the
      slices between the first `k + 1` bounds. */
  ghost predicate SlicesUpTo<T>(resource: seq<T>, rs: seq<Option<seq<T>>>, bounds: seq<int>, k: nat)
    requires k <= |rs| && |bounds| == |rs| + 1
  {
    k == 0 || (SlicesUpTo(resource, rs, bounds, k - 1)
      && 0 <= bounds[k - 1] <= bounds[k] <= |resource| && PartData(rs, k - 1) == resource[bounds[k - 1]..bounds[k]])
  }

  /** Every prefix of slices is a prefix of slices. */
  lemma {:induction false} SlicesUpToAll<T>(resource: seq<T>, rs: seq<Option<seq<T>>>, bounds: seq<int>, k: nat)
    requires k <= |rs| && SlicesOf(resource, rs, bounds)
    ensures SlicesUpTo(resource, rs, bounds, k)
    ensures 0 < k ==> 0 <= bounds[k] <= |resource|
  {
    if k > 0 {
      SlicesUpToAll(resource, rs, bounds, k - 1);
      SliceAt(resource, rs, bounds, k - 1);
    }
  }

  /** One slice of `SlicesOf`, spelled out. */
  lemma SliceAt<T>(resource: seq<T>, rs: seq<Option<seq<T>>>, bounds: seq<int>, i: int)
    requires SlicesOf(resource, rs, bounds) && 0 <= i < |rs|
    ensures 0 <= bounds[i] <= bounds[i + 1] <= |resource|
    ensures PartData(rs, i) == resource[bounds[i]..bounds[i + 1]]
  {
    var part := PartData(rs, i);
  }

  /** The first `k` slices concatenate to the prefix that ends at bound `k`. */
  lemma {:induction false} ConcatPartsPrefix<T>(resource: seq<T>, rs: seq<Option<seq<T>>>, bounds: seq<int>, k: nat)
    requires k <= |rs| && |bounds| == |rs| + 1 && bounds[0] == 0 && 0 <= bounds[k] <= |resource|
    requires SlicesUpTo(resource, rs, bounds, k)
    ensures ConcatParts(rs, k) == resource[..bounds[k]]
  {
    if k > 0 {
      ConcatPartsPrefix(resource, rs, bounds, k - 1);
      PrefixExtends(resource, ConcatParts(rs, k - 1), PartData(rs, k - 1), bounds[k - 1], bounds[k]);
    }
  }

  /** A prefix followed by the slice after it is the longer prefix. */
  lemma PrefixExtends<T>(s: seq<T>, prefix: seq<T>, part: seq<T>, a: int, b: int)
    requires 0 <= a <= b <= |s|
    requires prefix == s[..a]
    requires part == s[a..b]
    ensures prefix + part == s[..b]
  {
  }

  /** End to end: an honest server and a tiling partition leave the resource
      itself in the target. */
  lemma MultiThreadDownloadsResource(m: map<Path, Node>, dir: Path, resource: seq<byte>, numThreads: int,
                                     fetch: ByteRange -> Option<seq<byte>>)
    requires numThreads >= 1 && Ready(m, dir, numThreads)
    requires Serves(resource, numThreads, fetch)
    ensures MultiThreadOutcome(m, dir, Some(|resource|), numThreads, fetch).result == Some(dir)
    ensures TargetPath(dir) in MultiThreadOutcome(m, dir, Some(|resource|), numThreads, fetch).entries
    ensures MultiThreadOutcome(m, dir, Some(|resource|), numThreads, fetch).entries[TargetPath(dir)] == File(resource)
  {
    MultiThreadAssembles(m, dir, |resource|, numThreads, fetch);
    ServedSlices(resource, numThreads, fetch);
    assert Bounds(|resource|, numThreads)[0] == 0;
    SlicesUpToAll(resource, Responses(|resource|, numThreads, fetch), Bounds(|resource|, numThreads), numThreads);
    ConcatPartsPrefix(resource, Responses(|resource|, numThreads, fetch), Bounds(|resource|, numThreads), numThreads);
  }

  /** A failed ranged request settles with `undefined` before the target is
      touched; the parts already written stay behind. */
  lemma FailedPartKeepsTarget(m: map<Path, Node>, dir: Path, length: nat, numThreads: int,
                              fetch: ByteRange -> Option<seq<byte>>, i: int)
    requires 0 <= i < numThreads && fetch(RangeOf(length, numThreads, i)).None?
    ensures MultiThreadOutcome(m, dir, Some(length), numThreads, fetch).result.None?
    ensures TargetPath(dir) in MultiThreadOutcome(m, dir, Some(length), numThreads, fetch).entries
      <==> TargetPath(dir) in m
    ensures TargetPath(dir) in m ==>
      MultiThreadOutcome(m, dir, Some(length), numThreads, fetch).entries[TargetPath(dir)] == m[TargetPath(dir)]
  {
    var rs := Responses(length, numThreads, fetch);
    PartsWrittenFails(m, dir, rs, i, |rs|);
    PartsWrittenKeepsTarget(m, dir, rs, |rs|);
  }

  lemma {:induction false} PartsWrittenFails(m: map<Path, Node>, dir: Path, rs: seq<Option<seq<byte>>>, i: nat, k: nat)
    requires i < k <= |rs| && rs[i].None?
    ensures !PartsWritten(m, dir, rs, k).ok
  {
    if i < k - 1 {
      PartsWrittenFails(m, dir, rs, i, k - 1);
    }
  }

  lemma {:induction false} PartsWrittenKeepsTarget(m: map<Path, Node>, dir: Path, rs: seq<Option<seq<byte>>>, k: nat)
    requires k <= |rs|
    ensures TargetPath(dir) in PartsWritten(m, dir, rs, k).entries <==> TargetPath(dir) in m
    ensures TargetPath(dir) in m ==> PartsWritten(m, dir, rs, k).entries[TargetPath(dir)] == m[TargetPath(dir)]
  {
    if k > 0 {
      PartsWrittenKeepsTarget(m, dir, rs, k - 1);
      PartPathFacts(dir, k - 1, 0);
    }
  }

  // ---------------------------------------------------------------------------
  // The accelerators' command lines

  /** The user agent `downloadVideo` sends. */
  const USER_AGENT: string :=
    "Mozilla/5.0 (Linux; Android 5.0; SM-G900P Build/LRX21T) AppleWebKit/537.36 (KHTML, like Gecko) Chrome/70.0.3538.25 Mobile Safari/537.36"

  /** A custom request header, in the order `Object.entries` lists it. */
  datatype Header = Header(key: string, value: string)

  /** One header flag: the prefix, then `"${key}: ${value}"`. */
  function HeaderArg(prefix: string, h: Header): string {
    prefix + Quoted(h.key + ": " + h.value)
  }

  /** The `for (const [key, value] of Object.entries(headers))` loop of both
      accelerators: one flag per header, in order, after the arguments already there. */
  method AppendHeaders(base: seq<string>, prefix: string, headers: seq<Header>) returns (args: seq<string>)
    ensures |args| == |base| + |headers|
    ensures args[..|base|] == base
    ensures forall i :: 0 <= i < |headers| ==> args[|base| + i] == HeaderArg(prefix, headers[i])
  {
    args := base;
    var i := 0;
    while i < |headers|
      invariant 0 <= i <= |headers|
      invariant |args| == |base| + i
      invariant args[..|base|] == base
      invariant forall j :: 0 <= j < i ==> args[|base| + j] == HeaderArg(prefix, headers[j])
    {
      args := args + [HeaderArg(prefix, headers[i])];
      i := i + 1;
    }
  }

  /** The six arguments every Aria2 download starts with. */
  function Aria2BaseArgs(url: string, groupPath: string, userAgent: string, numThreads: int): seq<string> {
    [Quoted(url), "--out=\"temp.mp4\"", "--dir=" + Quoted(groupPath), "--user-agent=" + Quoted(userAgent),
     "--max-connection-per-server=" + IntToString(numThreads), "--split=" + IntToString(numThreads)]
  }

  /** The argument list of `downloadVideoWithAria2`: the six fixed arguments,
      one `--header` per header in order, and `--all-proxy` last when a proxy
      agent is configured. */
  method Aria2Args(url: string, groupPath: string, userAgent: string, numThreads: int,
                   headers: seq<Header>, proxyHref: Option<string>) returns (args: seq<string>)
    ensures |args| == 6 + |headers| + (if proxyHref.Some? then 1 else 0)
    ensures args[..6] == Aria2BaseArgs(url, groupPath, userAgent, numThreads)
    ensures forall i :: 0 <= i < |headers| ==> args[6 + i] == HeaderArg("--header=", headers[i])
    ensures proxyHref.Some? ==> args[|args| - 1] == "--all-proxy=" + Quoted(proxyHref.value)
  {
    args := AppendHeaders(Aria2BaseArgs(url, groupPath, userAgent, numThreads), "--header=", headers);
    if proxyHref.Some? {
      args := args + ["--all-proxy=" + Quoted(proxyHref.value)];
    }
  }

  /** The four arguments every axel download starts with; the url is not quoted. */
  function AxelBaseArgs(url: string, target: string, userAgent: string, numThreads: int): seq<string> {
    ["-n " + IntToString(numThreads), "-o " + Quoted(target), "-U " + Quoted(userAgent), url]
  }

  /** The argument list of `downloadVideoUseAxel`: the four fixed arguments,
      one `-H` per header in order, and `--proxy` last when a proxy agent is configured. */
  method AxelArgs(url: string, target: string, userAgent: string, numThreads: int,
                  headers: seq<Header>, proxyHref: Option<string>) returns (args: seq<string>)
    ensures |args| == 4 + |headers| + (if proxyHref.Some? then 1 else 0)
    ensures args[..4] == AxelBaseArgs(url, target, userAgent, numThreads)
    ensures forall i :: 0 <= i < |headers| ==> args[4 + i] == HeaderArg("-H ", headers[i])
    ensures proxyHref.Some? ==> args[|args| - 1] == "--proxy=" + Quoted(proxyHref.value)
  {
    args := AppendHeaders(AxelBaseArgs(url, target, userAgent, numThreads), "-H ", headers);
    if proxyHref.Some? {
      args := args + ["--proxy=" + Quoted(proxyHref.value)];
    }
  }

  /** The shell command run for an argument list: `${tool} ${args.join(' ')}`. */
  function ToolCommand(tool: string, args: seq<string>): (c: string)
    ensures |args| > 0 ==> c == tool + " " + Join(args, " ")
  {
    tool + " " + Join(args, " ")
  }

  /** The Aria2 command always starts `aria2c "url" --out="temp.mp4"`. */
  lemma Aria2CommandStartsWithUrl(args: seq<string>, url: string, groupPath: string, userAgent: string, numThreads: int)
    requires |args| >= 6 && args[..6] == Aria2BaseArgs(url, groupPath, userAgent, numThreads)
    ensures ToolCommand("aria2c", args) == "aria2c" + " " + Quoted(url) + " " + "--out=\"temp.mp4\"" + " " + Join(args[2..], " ")
  {
    assert args[0] == Quoted(url) && args[1] == "--out=\"temp.mp4\"" by {
      assert args[0] == args[..6][0] && args[1] == args[..6][1];
    }
    ToolCommandHead("aria2c", args);
  }

  /** A command line of at least three arguments, its first two spelled out. */
  lemma ToolCommandHead(tool: string, args: seq<string>)
    requires |args| >= 3
    ensures ToolCommand(tool, args) == tool + " " + args[0] + " " + args[1] + " " + Join(args[2..], " ")
  {
    JoinFirstTwo(args, " ");
    RegroupFour(tool + " ", args[0] + " " + args[1], " ", Join(args[2..], " "));
  }

  // ---------------------------------------------------------------------------
  // Polling for an accelerator's output

  /** The number of ticks after which an accelerator download is given up. */
  const POLL_LIMIT: nat := 6

  /** The `setInterval` loop: at tick `t` (1, 2, ...) the target is checked,
      `present(t)` telling whether it exists then. The first tick that finds
      it resolves with the directory; otherwise the sixth tick rejects. The
      existence check comes first, so a file found at tick 6 still resolves. */
  method WaitForTarget(groupPath: Path, present: nat -> bool) returns (r: Option<Path>, ticks: nat, elapsed: nat)
    ensures 1 <= ticks <= POLL_LIMIT
    ensures elapsed == ticks * Constants.DOWNLOAD_WAIT_DETECT_FILE_TIME
    ensures r.Some? ==> r.value == groupPath && present(ticks)
    ensures forall t :: 1 <= t < ticks ==> !present(t)
    ensures r.None? ==> ticks == POLL_LIMIT && !present(POLL_LIMIT)
  {
    var count := 0;
    while true
      invariant 0 <= count < POLL_LIMIT
      invariant forall t :: 1 <= t <= count ==> !present(t)
      decreases POLL_LIMIT - count
    {
      count := count + 1;
      if present(count) {
        return Some(groupPath), count, count * Constants.DOWNLOAD_WAIT_DETECT_FILE_TIME;
      }
      if count == POLL_LIMIT {
        return None, count, count * Constants.DOWNLOAD_WAIT_DETECT_FILE_TIME;
      }
    }
  }

  /** How a download settles: resolved (with `None` for `undefined`), or rejected. */
  datatype Failure = FsError(error: Errno) | NotDetected
  datatype Settlement = Resolved(path: Option<Path>) | Rejected(reason: Failure)

  /** How an accelerator or single-thread download settles, the disk after it
      and the command it launched, if any. */
  datatype Settled = Settled(settlement: Settlement, entries: map<Path, Node>, command: Option<string>)

  /** `downloadVideoWithAria2` / `downloadVideoUseAxel` after the argument
      list: a failing removal of the stale target rejects before anything is
      launched; otherwise the command runs, and the download resolves exactly
      when some tick finds the target. `present(t)` says the tool's file is
      there at tick `t`, and `output` is what the tool has written there by
      then; a tool cannot create a file where a write stream could not, so
      such a target is never found. */
  function AcceleratorOutcome(m: map<Path, Node>, dir: Path, tool: string, args: seq<string>,
                              present: nat -> bool, output: seq<byte>): Settled
  {
    var target := TargetPath(dir);
    match RemoveOutcome(m, target)
    case Fail(err) => Settled(Rejected(FsError(err)), m, None)
    case Pass =>
      var cleared := RemovedEntries(m, target);
      var command := Some(ToolCommand(tool, args));
      if (exists t :: 1 <= t <= POLL_LIMIT && present(t)) && WriteError(cleared, target).None? then
        Settled(Resolved(Some(dir)), cleared[target := File(output)], command)
      else
        Settled(Rejected(NotDetected), cleared, command)
  }

  /** An accelerator download launches its command exactly when the removal
      of a stale target passes and never settles with `undefined`. When it
      resolves, the target holds the tool's output; otherwise the disk is the
      one the removal left. */
  lemma AcceleratorOutcomeShape(m: map<Path, Node>, dir: Path, tool: string, args: seq<string>,
                                present: nat -> bool, output: seq<byte>)
    ensures var out := AcceleratorOutcome(m, dir, tool, args, present, output);
      && (out.command.Some? <==> RemoveOutcome(m, TargetPath(dir)).Pass?)
      && (out.settlement == Resolved(Some(dir)) <==>
            && out.command.Some? && (exists t :: 1 <= t <= POLL_LIMIT && present(t))
            && WriteError(RemovedEntries(m, TargetPath(dir)), TargetPath(dir)).None?)
      && (out.settlement == Resolved(Some(dir)) ==>
            out.entries == RemovedEntries(m, TargetPath(dir))[TargetPath(dir) := File(output)])
      && (out.settlement != Resolved(Some(dir)) ==> out.entries == RemovedEntries(m, TargetPath(dir)))
      && out.settlement != Resolved(None)
  {
  }

  /** Once `mkdirIfNotExists` has passed and the stale target is gone, the
      target can be written: its parent is a directory and it is not one. */
  lemma EnsuredTargetWritable(m: map<Path, Node>, dir: Path)
    requires Tree(m) && EnsureDirOutcome(m, dir).Pass?
    requires RemoveOutcome(EnsuredDirs(m, dir), TargetPath(dir)).Pass?
    ensures WriteError(RemovedEntries(EnsuredDirs(m, dir), TargetPath(dir)), TargetPath(dir)).None?
  {
    var m' := EnsuredDirs(m, dir);
    var target := TargetPath(dir);
    EnsureDirEstablishesPath(m, dir);
    assert Parent(target) == dir;
    assert target[..|dir|] == dir;
    if dir != [] {
      if IsFileAt(m', target) {
        AncestorIsDir(m', target, |dir|);
      } else {
        assert AccessError(m', target) == Some(ENOENT);
        assert dir in m';
        assert !IsFileAt(m', target[..|dir|]);
      }
    }
    assert IsDirAt(m', dir);
  }

  /** `downloadVideoWithSingleThread`, on the disk: the stale target goes, and
      the body is written to it when there is one; an error while removing or
      fetching gives `undefined`, a failing write rejects. */
  function SingleThreadOutcome(m: map<Path, Node>, dir: Path, body: Option<seq<byte>>): Settled {
    var target := TargetPath(dir);
    if RemoveOutcome(m, target).Fail? then Settled(Resolved(None), m, None)
    else
      var cleared := RemovedEntries(m, target);
      if body.None? then Settled(Resolved(None), cleared, None)
      else
        match WriteError(cleared, target)
        case Some(err) => Settled(Rejected(FsError(err)), cleared, None)
        case None => Settled(Resolved(Some(dir)), cleared[target := File(body.value)], None)
  }

  /** The single-thread download changes no path but the target; it resolves
      with the directory exactly when the removal passes, a body arrives and
      the write succeeds, and the target then holds that body; a rejection is
      always a write error. */
  lemma SingleThreadOutcomeShape(m: map<Path, Node>, dir: Path, body: Option<seq<byte>>)
    ensures var out := SingleThreadOutcome(m, dir, body);
      && (forall q :: q != TargetPath(dir) ==> (q in out.entries <==> q in m))
      && (forall q :: q != TargetPath(dir) && q in out.entries ==> out.entries[q] == m[q])
      && (out.settlement == Resolved(Some(dir)) <==>
            && RemoveOutcome(m, TargetPath(dir)).Pass? && body.Some?
            && WriteError(RemovedEntries(m, TargetPath(dir)), TargetPath(dir)).None?)
      && (out.settlement == Resolved(Some(dir)) ==>
            TargetPath(dir) in out.entries && out.entries[TargetPath(dir)] == File(body.value))
      && (out.settlement.Rejected? ==>
            && body.Some? && out.settlement.reason.FsError?
            && WriteError(RemovedEntries(m, TargetPath(dir)), TargetPath(dir)) == Some(out.settlement.reason.error))
      && out.command.None?
  {
  }

  /** What follows the argument list in `downloadVideoWithAria2` and
      `downloadVideoUseAxel`: the stale target is removed (an error there is
      rethrown), the command `${tool} ${args.join(' ')}` is launched detached,
      and the target is polled for. `command` is the command launched. */
  method DownloadWithAccelerator(fs: FileSystem, dir: Path, tool: string, args: seq<string>,
                                 present: nat -> bool, output: seq<byte>)
    returns (s: Settlement, command: Option<string>)
    requires fs.Valid()
    modifies fs
    ensures fs.Valid()
    ensures Settled(s, fs.entries, command) == AcceleratorOutcome(old(fs.entries), dir, tool, args, present, output)
    ensures s == Resolved(Some(dir)) ==>
      fs.entries == RemovedEntries(old(fs.entries), TargetPath(dir))[TargetPath(dir) := File(output)]
    ensures s != Resolved(Some(dir)) ==> fs.entries == RemovedEntries(old(fs.entries), TargetPath(dir))
    ensures RemoveOutcome(old(fs.entries), TargetPath(dir)).Fail? ==>
      s == Rejected(FsError(RemoveOutcome(old(fs.entries), TargetPath(dir)).error)) && command.None?
    ensures RemoveOutcome(old(fs.entries), TargetPath(dir)).Pass? ==>
      && command == Some(ToolCommand(tool, args))
      && (s == Resolved(Some(dir)) <==>
            && (exists t :: 1 <= t <= POLL_LIMIT && present(t))
            && WriteError(RemovedEntries(old(fs.entries), TargetPath(dir)), TargetPath(dir)).None?)
      && (s != Resolved(Some(dir)) ==> s == Rejected(NotDetected))
  {
    var removed := CheckAndRemoveFile(fs, TargetPath(dir));
    if removed.Fail? {
      return Rejected(FsError(removed.error)), None;
    }
    command := Some(ToolCommand(tool, args));
    var found, ticks, _ := WaitForTarget(dir, present);
    if found.Some? {
      // the tick saw the file the tool wrote
      var err := fs.WriteFile(TargetPath(dir), output);
      s := if err.None? then Resolved(found) else Rejected(NotDetected);
    } else {
      s := Rejected(NotDetected);
      assert forall t :: 1 <= t <= POLL_LIMIT ==> !present(t) by {
        assert ticks == POLL_LIMIT;
      }
    }
  }

  // ---------------------------------------------------------------------------
  // The single-thread download

  /** `downloadVideoWithSingleThread`: the stale target is removed and the
      response body piped into it. Errors before the pipe are caught and give
      `undefined`; a failing write stream rejects the returned promise, which
      the `try` does not cover. */
  method DownloadWithSingleThread(fs: FileSystem, dir: Path, body: Option<seq<byte>>) returns (s: Settlement)
    requires fs.Valid()
    modifies fs
    ensures fs.Valid()
    ensures Settled(s, fs.entries, None) == SingleThreadOutcome(old(fs.entries), dir, body)
    ensures RemoveOutcome(old(fs.entries), TargetPath(dir)).Fail? ==> s == Resolved(None) && fs.entries == old(fs.entries)
    ensures RemoveOutcome(old(fs.entries), TargetPath(dir)).Pass? ==>
      var cleared := RemovedEntries(old(fs.entries), TargetPath(dir));
      && (body.None? ==> s == Resolved(None) && fs.entries == cleared)
      && (body.Some? && WriteError(cleared, TargetPath(dir)).None? ==>
            s == Resolved(Some(dir)) && fs.entries == cleared[TargetPath(dir) := File(body.value)])
      && (body.Some? && WriteError(cleared, TargetPath(dir)).Some? ==>
            s == Rejected(FsError(WriteError(cleared, TargetPath(dir)).value)) && fs.entries == cleared)
  {
    var target := TargetPath(dir);
    var removed := CheckAndRemoveFile(fs, target);
    if removed.Fail? {
      return Resolved(None);
    }
    if body.None? {
      return Resolved(None);
    }
    var err := fs.WriteFile(target, body.value);
    if err.Some? {
      s := Rejected(FsError(err.value));
    } else {
      s := Resolved(Some(dir));
    }
  }

  // ---------------------------------------------------------------------------
  // downloadVideo

  /** What the network answers during one download. */
  datatype Network = Network(
    contentLength: Option<nat>,                  // the HEAD request's `content-length`
    ranged: ByteRange -> Option<seq<byte>>,      // each ranged GET
    body: Option<seq<byte>>,                     // the plain GET
    present: nat -> bool,                        // whether an accelerator's file exists at each tick
    toolOutput: seq<byte>)                       // what the accelerator has written at the target

  /** `downloadVideo(url, isProxy, headers, numThreads)` for the chat of `e`:
      ensures the chat directory (an error there rejects), then runs the
      strategy `ChooseStrategy` picks. `proxyHref` is the proxy agent's href
      when `isProxy` holds; `command` is the accelerator command launched, if any. */
  method DownloadVideo(fs: FileSystem, defaultPath: string, e: Event, url: string, headers: seq<Header>,
                       proxyHref: Option<string>, numThreads: int, downloadMethod: int, net: Network)
    returns (s: Settlement, strategy: Option<Strategy>, command: Option<string>)
    requires fs.Valid()
    modifies fs
    ensures fs.Valid()
    ensures var dir := Components(GroupPathAndTarget(defaultPath, e).groupPath);
      && (EnsureDirOutcome(old(fs.entries), dir).Fail? ==>
            && s == Rejected(FsError(EnsureDirOutcome(old(fs.entries), dir).error))
            && strategy.None? && command.None? && fs.entries == old(fs.entries))
      && (EnsureDirOutcome(old(fs.entries), dir).Pass? ==>
            strategy == Some(ChooseStrategy(numThreads, downloadMethod)))
    ensures var dir := Components(GroupPathAndTarget(defaultPath, e).groupPath);
      var m := EnsuredDirs(old(fs.entries), dir);
      && (strategy == Some(MultiRange) ==>
            var outcome := MultiThreadOutcome(m, dir, net.contentLength, numThreads, net.ranged);
            s == Resolved(outcome.result) && fs.entries == outcome.entries && command.None?)
      && (strategy == Some(SingleThread) ==>
            command.None? &&
            (s == Resolved(Some(dir)) <==>
               (RemoveOutcome(m, TargetPath(dir)).Pass? && net.body.Some? &&
                WriteError(RemovedEntries(m, TargetPath(dir)), TargetPath(dir)).None?)) &&
            (s == Resolved(Some(dir)) ==> TargetPath(dir) in fs.entries && fs.entries[TargetPath(dir)] == File(net.body.value)))
      && (strategy == Some(Aria2) || strategy == Some(Axel) ==>
            (command.Some? <==> RemoveOutcome(m, TargetPath(dir)).Pass?) &&
            (s == Resolved(Some(dir)) <==> command.Some? && exists t :: 1 <= t <= POLL_LIMIT && net.present(t)) &&
            (s == Resolved(Some(dir)) ==> TargetPath(dir) in fs.entries && fs.entries[TargetPath(dir)] == File(net.toolOutput)))
    ensures var loc := GroupPathAndTarget(defaultPath, e);
      var dir := Components(loc.groupPath);
      var m := EnsuredDirs(old(fs.entries), dir);
      && (strategy == Some(SingleThread) ==> Settled(s, fs.entries, command) == SingleThreadOutcome(m, dir, net.body))
      && (strategy == Some(Aria2) ==>
            exists args: seq<string> ::
              && |args| >= 6 && args[..6] == Aria2BaseArgs(url, loc.groupPath, USER_AGENT, numThreads)
              && Settled(s, fs.entries, command) == AcceleratorOutcome(m, dir, "aria2c", args, net.present, net.toolOutput))
      && (strategy == Some(Axel) ==>
            exists args: seq<string> ::
              && |args| >= 4 && args[..4] == AxelBaseArgs(url, loc.target, USER_AGENT, numThreads)
              && Settled(s, fs.entries, command) == AcceleratorOutcome(m, dir, "axel", args, net.present, net.toolOutput))
  {
    var loc := GroupPathAndTarget(defaultPath, e);
    var dir := Components(loc.groupPath);
    ghost var m0 := fs.entries;
    var made := MkdirIfNotExists(fs, dir);
    if made.Fail? {
      return Rejected(FsError(made.error)), None, None;
    }
    var chosen := ChooseStrategy(numThreads, downloadMethod);
    strategy := Some(chosen);
    match chosen
    case SingleThread =>
      s := DownloadWithSingleThread(fs, dir, net.body);
      command := None;
    case Aria2 =>
      var args := Aria2Args(url, loc.groupPath, USER_AGENT, numThreads, headers, proxyHref);
      if RemoveOutcome(fs.entries, TargetPath(dir)).Pass? {
        EnsuredTargetWritable(m0, dir);
      }
      s, command := DownloadWithAccelerator(fs, dir, "aria2c", args, net.present, net.toolOutput);
    case Axel =>
      var args := AxelArgs(url, loc.target, USER_AGENT, numThreads, headers, proxyHref);
      if RemoveOutcome(fs.entries, TargetPath(dir)).Pass? {
        EnsuredTargetWritable(m0, dir);
      }
      s, command := DownloadWithAccelerator(fs, dir, "axel", args, net.present, net.toolOutput);
    case MultiRange =>
      var r := DownloadWithMultiThread(fs, dir, net.contentLength, numThreads, net.ranged);
      s := Resolved(r);
      command := None;
  }

  /** `mkdirIfNotExists` leaves the chat directory ready for the ranged
      download unless a file stands in its way. */
  lemma EnsuredDirIsReady(m: map<Path, Node>, dir: Path, n: nat)
    requires Tree(m) && EnsureDirOutcome(m, dir).Pass? && !IsFileAt(m, dir)
    requires !IsDirAt(m, TargetPath(dir)) && forall i :: 0 <= i < n ==> !IsDirAt(m, PartPath(dir, i))
    ensures Ready(EnsuredDirs(m, dir), dir, n)
  {
    EnsureDirEstablishesPath(m, dir);
    var m' := EnsuredDirs(m, dir);
    forall q | |q| > |dir| ensures (q in m' <==> q in m) && (q in m ==> m'[q] == m[q]) {
      assert q !in Prefixes(dir);
    }
    assert |TargetPath(dir)| > |dir|;
    forall i | 0 <= i < n ensures !IsDirAt(m', PartPath(dir, i)) {
      assert |PartPath(dir, i)| > |dir|;
    }
  }
}
