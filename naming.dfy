/**
 * The file names apps/RCtools.js derives for a chat: the per-chat download
 * directory of `getCurDownloadPath` and `getGroupPathAndTarget`, the part
 * files `${target}.part${i}` of a ranged download, and the names a live
 * capture uses (`sendStreamSegment`).
 */
module Naming {
  import opened Wrappers
  import opened Text
  import opened FileGuard

  /** The chat an event comes from; `group_id` is absent in a private chat. */
  datatype Event = Event(groupId: Option<int>, userId: int)

  /** The file name every download of a chat is written to. */
  const TARGET_NAME: string := "temp.mp4"

  /** `e.group_id || e.user_id`: a missing or zero group id falls back to the user. */
  function ChatId(e: Event): int {
    if e.groupId.Some? && e.groupId.value != 0 then e.groupId.value else e.userId
  }

  /** `getCurDownloadPath(e)`: the configured prefix followed directly by the chat id. */
  function CurDownloadPath(defaultPath: string, e: Event): (p: string)
    ensures |p| > |defaultPath| && p[..|defaultPath|] == defaultPath
  {
    defaultPath + IntToString(ChatId(e))
  }

  datatype Location = Location(groupPath: string, target: string)

  /** `getGroupPathAndTarget()`: the same directory, and `temp.mp4` inside it. */
  function GroupPathAndTarget(defaultPath: string, e: Event): (r: Location)
    ensures r.groupPath == CurDownloadPath(defaultPath, e)
    ensures r.target == r.groupPath + "/" + TARGET_NAME
  {
    var groupPath := defaultPath + IntToString(ChatId(e));
    Location(groupPath, groupPath + "/" + TARGET_NAME)
  }

  /** Two chats share a download directory exactly when their ids agree. */
  lemma DirectoriesSeparateChats(defaultPath: string, e1: Event, e2: Event)
    ensures CurDownloadPath(defaultPath, e1) == CurDownloadPath(defaultPath, e2) <==> ChatId(e1) == ChatId(e2)
  {
    var p1 := CurDownloadPath(defaultPath, e1);
    var p2 := CurDownloadPath(defaultPath, e2);
    if p1 == p2 {
      assert p1[|defaultPath|..] == IntToString(ChatId(e1));
      assert p2[|defaultPath|..] == IntToString(ChatId(e2));
      ParseIntOfIntToString(ChatId(e1), []);
      ParseIntOfIntToString(ChatId(e2), []);
      assert IntToString(ChatId(e1)) + [] == IntToString(ChatId(e1));
      assert IntToString(ChatId(e2)) + [] == IntToString(ChatId(e2));
    }
  }

  // ---------------------------------------------------------------------------
  // Part files of a ranged download

  /** The last component of `${target}.part${i}`. */
  function PartName(i: int): string {
    TARGET_NAME + ".part" + IntToString(i)
  }

  /** Distinct parts are distinct files, and none of them is the target. */
  lemma PartNamesDistinct(i: int, j: int)
    ensures PartName(i) == PartName(j) <==> i == j
    ensures PartName(i) != TARGET_NAME
  {
    assert |PartName(i)| > |TARGET_NAME|;
    if PartName(i) == PartName(j) {
      assert PartName(i)[13..] == IntToString(i);
      assert PartName(j)[13..] == IntToString(j);
      ParseIntOfIntToString(i, []);
      ParseIntOfIntToString(j, []);
      assert IntToString(i) + [] == IntToString(i);
      assert IntToString(j) + [] == IntToString(j);
    }
  }

  lemma SlashFreeNames(i: int)
    ensures forall k :: 0 <= k < |TARGET_NAME| ==> TARGET_NAME[k] != '/'
    ensures forall k :: 0 <= k < |PartName(i)| ==> PartName(i)[k] != '/'
  {
    IntToStringFree(i, '/');
    var s := IntToString(i);
    forall k | 0 <= k < |PartName(i)| ensures PartName(i)[k] != '/' {
      if k >= 13 {
        assert PartName(i)[k] == s[k - 13];
      }
    }
  }

  /** The target and the part files are entries of the chat directory itself. */
  lemma TargetAndPartsInDirectory(defaultPath: string, e: Event, i: int)
    ensures Components(GroupPathAndTarget(defaultPath, e).target)
      == Components(GroupPathAndTarget(defaultPath, e).groupPath) + [TARGET_NAME]
    ensures Components(GroupPathAndTarget(defaultPath, e).target + ".part" + IntToString(i))
      == Components(GroupPathAndTarget(defaultPath, e).groupPath) + [PartName(i)]
  {
    var dir := GroupPathAndTarget(defaultPath, e).groupPath;
    SlashFreeNames(i);
    ComponentsChild(dir, TARGET_NAME);
    ComponentsChild(dir, PartName(i));
    RegroupFour(dir + "/", TARGET_NAME, ".part", IntToString(i));
  }

  // ---------------------------------------------------------------------------
  // Live capture names

  /** `${getCurDownloadPath(e)}/stream_${second}s.flv`. */
  function StreamPath(dir: string, second: int): string {
    dir + "/stream_" + IntToString(second) + "s.flv"
  }

  /** The stale file removed before a capture: with the compatibility mode on,
      the first `flv` anywhere in the path becomes `mp4`. */
  function StaleCapturePath(path: string, compatibility: bool): string {
    if compatibility then ReplaceFirst(path, "flv", "mp4") else path
  }

  /** The file the compatibility conversion writes: the first `.flv` becomes `.mp4`. */
  function ConvertedPath(path: string): string {
    ReplaceFirst(path, ".flv", ".mp4")
  }

  /** A pattern whose first character does not occur in `s` is not in `s`. */
  lemma AbsentFirstChar(s: string, pat: string)
    requires pat != [] && pat[0] !in s
    ensures !Contains(s, pat)
  {
    forall j: nat ensures !OccursAt(s, pat, j) {
      OccurrenceStarts(s, pat, j);
      if j < |s| {
        assert s[j] in s;
      }
    }
  }

  /** No occurrence of `m` starts before the end of `a + b` when `a` lacks `m`,
      `b` starts with a character `m` only has first, and `b` lacks `m`'s first character. */
  lemma NoEarlierOccurrence(a: string, b: string, m: string)
    requires m != [] && b != [] && !Contains(a, m)
    requires b[0] !in m[1..] && m[0] !in b
    ensures forall j: nat :: j < |a + b| ==> !OccursAt(a + b + m, m, j)
  {
    var s := a + b + m;
    forall j: nat | j < |a + b| ensures !OccursAt(s, m, j) {
      if j + |m| <= |a| {
        assert s == a + (b + m);
        OccursInPrefix(a, b + m, m, j);
      } else if j < |a| {
        var k := |a| - j;
        assert s[|a|] == b[0];
        assert m[1..][k - 1] == m[k];
        if j + |m| <= |s| {
          assert s[j..j + |m|][k] == s[|a|] != m[k];
        }
      } else {
        assert s[j] == b[j - |a|];
        assert b[j - |a|] in b;
        OccurrenceStarts(s, m, j);
      }
    }
  }

  /** Under the conditions above, `replace(m, rep)` rewrites the trailing `m`. */
  lemma ReplaceTrailing(a: string, b: string, m: string, rep: string)
    requires m != [] && b != [] && !Contains(a, m)
    requires b[0] !in m[1..] && m[0] !in b
    ensures ReplaceFirst(a + b + m, m, rep) == a + b + rep
  {
    NoEarlierOccurrence(a, b, m);
    assert (a + b) + m + [] == a + b + m;
    FirstOccurrenceAfter(a + b, m, []);
    assert (a + b + m)[..|a + b|] == a + b;
  }

  /** The stream file name past the directory, without its extension, holds
      neither `f` nor `.`. */
  lemma StreamStemFree(second: int)
    ensures 'f' !in "/stream_" + IntToString(second) + "s."
    ensures '.' !in "/stream_" + IntToString(second) + "s"
  {
    var n := IntToString(second);
    IntToStringFree(second, 'f');
    IntToStringFree(second, '.');
    assert forall k :: 0 <= k < |n| ==> n[k] != 'f' && n[k] != '.';
  }

  /** A path without `flv` has no `.flv` either. */
  lemma NoFlvNoDotFlv(dir: string)
    requires !Contains(dir, "flv")
    ensures !Contains(dir, ".flv")
  {
    if Contains(dir, ".flv") {
      var j := IndexOf(dir, ".flv", 0).value;
      assert dir[j + 1..j + 4] == dir[j..j + 4][1..];
      assert OccursAt(dir, "flv", j + 1);
    }
  }

  /** When the chat directory holds no `flv`, the stale file removed in
      compatibility mode is exactly the file the conversion produces. */
  lemma CaptureNamesAgree(dir: string, second: int)
    requires !Contains(dir, "flv")
    ensures StaleCapturePath(StreamPath(dir, second), true) == dir + "/stream_" + IntToString(second) + "s.mp4"
    ensures ConvertedPath(StreamPath(dir, second)) == dir + "/stream_" + IntToString(second) + "s.mp4"
  {
    var n := IntToString(second);
    StreamStemFree(second);
    NoFlvNoDotFlv(dir);
    StreamPathSplits(dir, n);
    ReplaceTrailing(dir, "/stream_" + n + "s.", "flv", "mp4");
    ReplaceTrailing(dir, "/stream_" + n + "s", ".flv", ".mp4");
  }

  lemma StreamPathSplits(dir: string, n: string)
    ensures dir + "/stream_" + n + "s.flv" == dir + ("/stream_" + n + "s.") + "flv"
    ensures dir + "/stream_" + n + "s.flv" == dir + ("/stream_" + n + "s") + ".flv"
    ensures dir + ("/stream_" + n + "s.") + "mp4" == dir + "/stream_" + n + "s.mp4"
    ensures dir + ("/stream_" + n + "s") + ".mp4" == dir + "/stream_" + n + "s.mp4"
  {
    assert "s.flv" == "s." + "flv" == "s" + ".flv";
    assert "s.mp4" == "s." + "mp4" == "s" + ".mp4";
  }

  /** With `flv` earlier in the path the two names part: the stale-file step
      removes `/data/mp4/1/stream_30s.flv` while the conversion writes
      `/data/flv/1/stream_30s.mp4`. */
  lemma CaptureNamesDivergeOnFlvDirectory()
    ensures StaleCapturePath(StreamPath("/data/flv/1", 30), true) != ConvertedPath(StreamPath("/data/flv/1", 30))
  {
    var dir := "/data/flv/1";
    var s := StreamPath(dir, 30);
    assert s[6..9] == "flv";
    assert s[..6] == "/data/";
    IndexOfAt(s, "flv", 6);
    assert StaleCapturePath(s, true)[6] == 'm';
    AbsentFirstChar(dir, ".flv");
    StreamStemFree(30);
    var b2 := "/stream_" + IntToString(30) + "s";
    StreamPathSplits(dir, IntToString(30));
    ReplaceTrailing(dir, b2, ".flv", ".mp4");
    assert ConvertedPath(s)[6] == 'f';
  }
}
