/**
 * How apps/RCtools.js hands a downloaded video to the chat
 * (`sendVideoToUpload` and `uploadGroupFile`): a missing file gets a reply,
 * a file above the size limit goes to the group's files, anything else is
 * sent as a video and then deleted; an error on the way deletes the file.
 */
module Delivery {
  import opened Wrappers
  import opened Text
  import opened FileGuard

  const BYTES_PER_MEGABYTE: nat := 1024 * 1024

  /** `Math.floor(stats.size / (1024 * 1024))`. */
  function SizeInMegabytes(size: nat): (mb: nat)
    ensures mb * BYTES_PER_MEGABYTE <= size < (mb + 1) * BYTES_PER_MEGABYTE
  {
    size / BYTES_PER_MEGABYTE
  }

  /** A size of at least `k` megabytes counts as at least `k`. */
  lemma MegabytesAtLeast(size: nat, k: int)
    requires size >= k * BYTES_PER_MEGABYTE
    ensures SizeInMegabytes(size) >= k
  {
    var mb := SizeInMegabytes(size);
    assert k * BYTES_PER_MEGABYTE < (mb + 1) * BYTES_PER_MEGABYTE;
  }

  /** A size below `k` megabytes counts as less than `k`. */
  lemma MegabytesBelow(size: nat, k: int)
    requires size < k * BYTES_PER_MEGABYTE
    ensures SizeInMegabytes(size) < k
  {
    var mb := SizeInMegabytes(size);
    assert mb * BYTES_PER_MEGABYTE < k * BYTES_PER_MEGABYTE;
  }

  /** What the plugin asks the chat to do. */
  datatype Action =
    | Reply(text: string)
    | SendVideo(path: Path)
    | UploadToGroupFs(path: Path)   // `e.group.fs.upload(path)` on ICQQ
    | SendGroupFile(path: Path)     // `e.group.sendFile(path)` elsewhere

  const MISSING_VIDEO: string := "视频不存在"

  /** The notice sent before a large video is uploaded instead. */
  function OversizeNotice(videoSize: int, videoSizeLimit: int): string {
    "当前视频大小：" + IntToString(videoSize) + "MB，\n大于设置的最大限制："
      + IntToString(videoSizeLimit) + "MB，\n改为上传群文件"
  }

  /** `uploadGroupFile(e, path)`: the ICQQ adapter (`e.bot.sendUni`) uploads
      through the group's file system, other adapters send a group file. */
  function UploadAction(path: Path, icqq: bool): (a: Action)
    ensures a.UploadToGroupFs? || a.SendGroupFile?
    ensures a.path == path
    ensures a.UploadToGroupFs? <==> icqq
  {
    if icqq then UploadToGroupFs(path) else SendGroupFile(path)
  }

  /** The chat of one event: every request the plugin makes of it, in order. */
  class Chat {
    var actions: seq<Action>

    constructor()
      ensures actions == []
    {
      actions := [];
    }

    method Act(a: Action)
      modifies this
      ensures actions == old(actions) + [a]
    {
      actions := actions + [a];
    }
  }

  /** The size `fs.statSync(path).size` reports. */
  function SizeAt(m: map<Path, Node>, p: Path): nat {
    if IsFileAt(m, p) then |m[p].data| else 0
  }

  /** The effect of one `sendVideoToUpload` call: the chat requests, the
      filesystem afterwards, and how the call settles. */
  datatype Delivered = Delivered(actions: seq<Action>, entries: map<Path, Node>, result: Outcome<Errno>)

  /** The catch block: one more `checkAndRemoveFile(path)`, whose error escapes. */
  function CleanedUp(actions: seq<Action>, m: map<Path, Node>, path: Path): Delivered {
    Delivered(actions, RemovedEntries(m, path), RemoveOutcome(m, path))
  }

  /** What `sendVideoToUpload(e, path, videoSizeLimit)` does when each awaited
      chat request succeeds exactly when `transportOk` holds. On the send
      path a failed deletion is caught and tried once more on the unchanged
      filesystem, so it settles like the cleanup. */
  function DeliveryOutcome(m: map<Path, Node>, path: Path, videoSizeLimit: int, icqq: bool, transportOk: bool): Delivered {
    if !ExistsAt(m, path) then Delivered([Reply(MISSING_VIDEO)], m, Pass)
    else
      var videoSize := SizeInMegabytes(SizeAt(m, path));
      if videoSize > videoSizeLimit then
        var actions := [Reply(OversizeNotice(videoSize, videoSizeLimit)), UploadAction(path, icqq)];
        if transportOk then Delivered(actions, m, Pass) else CleanedUp(actions, m, path)
      else
        CleanedUp([SendVideo(path)], m, path)
  }

  /** `sendVideoToUpload`. */
  method SendVideoToUpload(fs: FileSystem, chat: Chat, path: Path, videoSizeLimit: int, icqq: bool, transportOk: bool)
    returns (r: Outcome<Errno>)
    requires fs.Valid()
    modifies fs, chat
    ensures fs.Valid()
    ensures var d := DeliveryOutcome(old(fs.entries), path, videoSizeLimit, icqq, transportOk);
      chat.actions == old(chat.actions) + d.actions && fs.entries == d.entries && r == d.result
  {
    var present := fs.Exists(path);
    if !present {
      chat.Act(Reply(MISSING_VIDEO));
      return Pass;
    }
    var stat := fs.StatSize(path);
    assert stat.Ok?;
    var videoSize := SizeInMegabytes(stat.value);
    if videoSize > videoSizeLimit {
      chat.Act(Reply(OversizeNotice(videoSize, videoSizeLimit)));
      chat.Act(UploadAction(path, icqq));
      if transportOk {
        return Pass;
      }
      r := CheckAndRemoveFile(fs, path);
    } else {
      chat.Act(SendVideo(path));
      if transportOk {
        var removed := CheckAndRemoveFile(fs, path);
        if removed.Pass? {
          return Pass;
        }
      }
      r := CheckAndRemoveFile(fs, path);
    }
  }

  /** A missing video only gets the "does not exist" reply and nothing is deleted. */
  lemma MissingVideoOnlyReplies(m: map<Path, Node>, path: Path, videoSizeLimit: int, icqq: bool, transportOk: bool)
    requires !ExistsAt(m, path)
    ensures DeliveryOutcome(m, path, videoSizeLimit, icqq, transportOk) == Delivered([Reply(MISSING_VIDEO)], m, Pass)
  {
  }

  /** A video above the limit is uploaded, never sent, and stays on disk
      when the upload succeeds. */
  lemma OversizeVideoIsUploadedAndKept(m: map<Path, Node>, path: Path, videoSizeLimit: int, icqq: bool)
    requires IsFileAt(m, path) && |m[path].data| >= (videoSizeLimit + 1) * BYTES_PER_MEGABYTE
    ensures var d := DeliveryOutcome(m, path, videoSizeLimit, icqq, true);
      && d.entries == m && d.result == Pass
      && |d.actions| == 2 && d.actions[1] == UploadAction(path, icqq)
      && forall i :: 0 <= i < |d.actions| ==> !d.actions[i].SendVideo?
  {
    MegabytesAtLeast(|m[path].data|, videoSizeLimit + 1);
  }

  /** A video within the limit is sent and then deleted, whether or not the
      send succeeds; nothing else on disk changes. */
  lemma SmallVideoIsSentAndDeleted(m: map<Path, Node>, path: Path, videoSizeLimit: int, icqq: bool, transportOk: bool)
    requires IsFileAt(m, path) && |m[path].data| < (videoSizeLimit + 1) * BYTES_PER_MEGABYTE
    ensures var d := DeliveryOutcome(m, path, videoSizeLimit, icqq, transportOk);
      && d.actions == [SendVideo(path)]
      && path !in d.entries && d.result == Pass
      && forall q :: q != path ==> (q in d.entries <==> q in m) && (q in d.entries ==> d.entries[q] == m[q])
  {
    MegabytesBelow(|m[path].data|, videoSizeLimit + 1);
  }

  /** A failed upload is cleaned up: the video is deleted. */
  lemma FailedUploadDeletes(m: map<Path, Node>, path: Path, videoSizeLimit: int, icqq: bool)
    requires IsFileAt(m, path) && SizeInMegabytes(|m[path].data|) > videoSizeLimit
    ensures var d := DeliveryOutcome(m, path, videoSizeLimit, icqq, false);
      path !in d.entries && d.result == Pass
  {
  }

  /** Only the video itself can disappear. */
  lemma DeliveryTouchesOnlyTheVideo(m: map<Path, Node>, path: Path, videoSizeLimit: int, icqq: bool, transportOk: bool)
    ensures var d := DeliveryOutcome(m, path, videoSizeLimit, icqq, transportOk);
      forall q :: q != path ==> (q in d.entries <==> q in m) && (q in d.entries ==> d.entries[q] == m[q])
  {
  }
}
