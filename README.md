# rc-plugin download engine, modelled in Dafny

rc-plugin is a Yunzai chat-bot plugin. It recognises media links in a chat,
downloads the media into a per-chat directory and sends the result back. This
project models the decision and bookkeeping layer of that pipeline:

- **`apps/RCtools.js`, download and delivery:**
  - how `downloadVideo` picks a strategy;
  - how the ranged download partitions a resource and reassembles its part files;
  - the aria2 and axel argument lists and the six-tick poll for their output;
  - the single-thread download;
  - the size gate of `sendVideoToUpload`.
- **`apps/RCtools.js`, decisions and names:**
  - the blacklist and overseas switches;
  - Bilibili page selection and the title suffix;
  - dynamic-id extraction;
  - the chat directory and the live-capture file names.
- **`utils/`:** the filesystem guards of `file.js`, the pure helpers of
  `common.js`, and the command strings and exec-result decisions of
  `yt-dlp-util.js` and `tdl-util.js`.
- **`constants/constant.js`:** its lookup tables.

The filesystem is a class, `FileGuard.FileSystem`:

- Its one field maps path components to files and directories.
- Every filesystem call is a method over that field. Each method's contract
  states the new map and the error code returned.

The download methods are proved against specification functions on that map:

- `Download.MultiThreadOutcome` for the ranged download;
- `FileGuard.RemovedEntries` and `FileGuard.EnsuredDirs` for the file guards.

Lemmas then prove what those functions promise. For example, a ranged download
leaves exactly the resource in `temp.mp4` and removes every part file.

Network answers, tool output and chat transport results are parameters of the
model. One record per operation says what the outside world answered:

- `Download.Network`;
- `Process.ExecReport`;
- `Common.Attempt`;
- the `transportOk` flag of `Delivery.SendVideoToUpload`.

Modules:

| file | module | models |
|---|---|---|
| wrappers.dfy | Wrappers | `Option`, `Result`, `Outcome` |
| text.dfy | Text | the JavaScript string operations the code uses: `${n}`, `parseInt`, `indexOf`, `includes`, `replace`, `split`, `join`, `trim`, `padStart` |
| file.dfy | FileGuard | `utils/file.js` over a modelled filesystem |
| constants.dfy | Constants | `constants/constant.js` |
| common.dfy | Common | `utils/common.js` |
| exec.dfy | Process | what `child_process.exec` reports |
| ytdlp.dfy | YtDlp | `utils/yt-dlp-util.js` |
| tdl.dfy | Tdl | `utils/tdl-util.js` |
| naming.dfy | Naming | download directory, part and live-capture file names in `apps/RCtools.js` |
| download.dfy | Download | `downloadVideo` and its four strategies |
| bili.dfy | Bili | page selection, title line and dynamic id of the Bilibili handlers |
| controls.dfy | Controls | `isEnableResolve`, `isOverseasServer` |
| delivery.dfy | Delivery | `sendVideoToUpload`, `uploadGroupFile` |

In three places the code does something a reader may not expect; the model follows the code:

- **Partition tiling.** The ranged download does not always tile the resource.
  With `partSize = ceil(L/N)` the tail ranges run past the end or invert when
  `(N-1)*partSize > L-1`, for example L=5, N=4. `Download.TilingCondition`
  states exactly when the ranges tile.
- **Oversize delivery.** On the oversize path, `sendVideoToUpload` itself never
  deletes the file after a successful upload. The comment there says
  `uploadGroupFile` does, but its body does not.
- **axel url.** In the axel argument list the url is the fourth, unquoted
  argument, after `-n`, `-o` and `-U`.

## Model

| member | source | states |
|---|---|---|
| FileGuard.FileSystem.Exists | apps/RCtools.js:1335 | `existsSync` holds exactly for the root and the recorded entries |
| FileGuard.FileSystem.Access | utils/file.js:20 | `access` fails with ENOENT for a missing path, or ENOTDIR when a file stands on the way |
| FileGuard.FileSystem.Lstat | utils/file.js:58 | `lstat` reports the entry's kind, or the access error of a missing path |
| FileGuard.FileSystem.StatSize | apps/RCtools.js:1338 | `statSync(path).size` is the file's length; a directory reports 0; a missing path fails with its access error |
| FileGuard.FileSystem.ReadFile | apps/RCtools.js:1104 | reading a part gives its bytes; a directory fails with EISDIR |
| FileGuard.FileSystem.Unlink | utils/file.js:21 | `unlink` removes a file and nothing else; a directory fails with EISDIR, a missing path with its access error, and both leave the tree unchanged |
| FileGuard.FileSystem.MkdirRecursive | utils/file.js:40 | `mkdir(p, {recursive})` creates p and its missing ancestors, or fails and changes nothing |
| FileGuard.FileSystem.ReadDir | utils/file.js:82 | `readdir` succeeds exactly on a directory and lists each child name once |
| FileGuard.FileSystem.WriteFile | apps/RCtools.js:1086 | a write stream replaces the file when its parent is a directory, and otherwise leaves the tree unchanged |
| FileGuard.FileSystem.AppendFile | apps/RCtools.js:1101-1105 | an append stream extends the file (or starts an empty one) with the data |
| FileGuard.AccessError | utils/file.js:20 | no error exactly when the path exists; ENOTDIR exactly when a file ancestor blocks it |
| FileGuard.RemoveOutcome | utils/file.js:18-27 | `checkAndRemoveFile` passes exactly on a file or a missing path; any other error is not ENOENT |
| FileGuard.RemovedEntries | utils/file.js:20-21 | only the given path disappears, every other entry is unchanged, and a failure changes nothing |
| FileGuard.CheckAndRemoveFile | utils/file.js:18-27 | settles as `RemoveOutcome` and leaves the tree as `RemovedEntries` |
| FileGuard.HandleError | utils/file.js:8-11 | `handleError` rethrows the error it is given |
| FileGuard.MadeDirs | utils/file.js:40 | every existing entry is kept, every prefix of p exists, and new entries are directories on p's prefixes |
| FileGuard.EnsureDirOutcome | utils/file.js:35-46 | `mkdirIfNotExists` fails exactly when the access error is ENOTDIR (the one it rethrows) |
| FileGuard.MkdirIfNotExists | utils/file.js:35-46 | settles as `EnsureDirOutcome` and leaves the tree as `EnsuredDirs` |
| FileGuard.EnsureDirEstablishesPath | utils/file.js:35-46 | afterwards d and all its ancestors exist as directories; an existing d leaves the tree untouched |
| FileGuard.EnsureDirTwiceIsOnce | utils/file.js:35-46 | ensuring a directory twice is the same as once |
| FileGuard.RemoveTwiceIsRemoveOnce | utils/file.js:18-27 | removing twice is the same as removing once, and the second call passes |
| FileGuard.RemoveAbsentIsNoop | utils/file.js:23-27 | on an absent path nothing is thrown and nothing changes |
| FileGuard.ReadCurrentDir | utils/file.js:80-86 | lists the children of a directory; any other path rethrows the listing error |
| FileGuard.ListOutcome | utils/file.js:55 | `deleteFolderRecursive` succeeds exactly on a directory |
| FileGuard.DeleteFolderRecursive | utils/file.js:53-73 | returns the number of immediate entries listed, and leaves every file under the folder unlinked |
| FileGuard.ClearedEntriesShape | utils/file.js:56-63 | no file remains under the folder, every directory stays, and everything outside is unchanged |
| FileGuard.ClearTwiceIsOnce | utils/file.js:53-73 | clearing a folder twice is the same as once |
| FileGuard.ClearedAmongAll | utils/file.js:56-66 | clearing the listed children one by one, in any listing order, clears the whole folder |
| FileGuard.ComponentsChild | apps/RCtools.js:978 | `${dir}/${name}` names the entry `name` inside `dir` |
| FileGuard.RemoveFileKeepsTree | utils/file.js:21 | unlinking a file keeps the tree well formed |
| FileGuard.WriteKeepsTree | apps/RCtools.js:1086 | writing a file under a directory keeps the tree well formed |
| Constants.CdnHostSplit | constants/constant.js:70-77 | replacing `{}` in the CDN template gives `upos-sz-mirror<code>.bilivideo.com` |
| Constants.CdnTableShape | constants/constant.js:71-78 | value 0 has an empty sign; values 1 to 5 are the cos, bd, hw, akamai and aliov hosts; others are absent |
| Constants.CdnSign | constants/constant.js:71-78 | a CDN value has a sign exactly when it is 0..5, and the sign is that entry's |
| Constants.FindByValue | apps/RCtools.js:592-603 | `find` on either table returns the first entry with the value, or none when no entry has it |
| Constants.FindByValueIndexed | apps/RCtools.js:592-603 | in a table whose values count up from an offset, `find` is indexing, and a value outside the range finds nothing |
| Constants.ResolutionQn | constants/constant.js:86-94 | a resolution has a qn exactly when it is 0..6, and it is that entry's qn |
| Constants.ResolutionTableShape | constants/constant.js:86-94 | values are 0..6 in order, qn strictly decreases from 127 to 16, and every qn is non-zero |
| Constants.ResolutionFallbackUnused | apps/RCtools.js:603 | the lookup agrees with `find`, value 5 gives qn 32, and an unknown value fails |
| Constants.DownloadMethodTableShape | constants/constant.js:80-84 | three methods valued 0, 1, 2; the second names Aria2 and the third axel |
| Constants.DividingLineHasOnePlaceholder | constants/constant.js:30 | `{}` occurs in `DIVIDING_LINE` exactly once, at index 4 |
| Common.DataProcessing | utils/common.js:11-13 | values below 10000 print as themselves; larger ones print as the ten-thousands text followed by 万 |
| Common.FormatBiliInfoSingle | utils/common.js:20-24 | one entry renders as `key：value` |
| Common.FormatBiliInfoAppend | utils/common.js:20-24 | the rendering of two lists is their renderings joined by ` \| ` |
| Common.FormatBiliInfoSmallCounts | utils/common.js:20-24 | with every count below 10000, the result is the `key：count` entries joined by ` \| `, independent of the float formatter |
| Common.Pad2 | utils/common.js:32 | `padStart(2, '0')` gives at least two digits with the same value, exactly two below 100 |
| Common.ClockFields | utils/common.js:34-36 | h·3600 + m·60 + s equals the input, with m < 60 and s < 60 |
| Common.SecondsToTimeRoundTrip | utils/common.js:31-43 | reading `HH:MM:SS` back gives the seconds; it has three fields, minutes and seconds two digits wide, eight characters below 100 hours |
| Common.TruncateString | utils/common.js:51-55 | limit 0 or -1, or a short enough input, returns the input; otherwise the first `maxLength` characters plus `...`; a limit below -1 gives just `...` |
| Common.RetryFetch | utils/common.js:65-83 | succeeds exactly when one of the first `retries+1` attempts answers ok, returning the first ok response; otherwise throws the last attempt's error |
| Common.RetryFetchIgnoresLaterOutcomes | utils/common.js:73-81 | attempts beyond `retries+1` are never made; `retries <= 0` means exactly one attempt |
| Common.CountChineseCharacters | utils/common.js:91-95 | at most the text length; 0 exactly when no character is in U+4E00..U+9FA5; equal to the length exactly when all are |
| Common.CountChineseCharactersAppend | utils/common.js:91-95 | the count of a concatenation is the sum of the counts |
| Common.CeilDiv | utils/common.js:106-108 | for wpm > 0, `ceil(words/wpm)` is the least m with m·wpm ≥ words |
| Common.EstimateReadingTime | utils/common.js:104-111 | `words` is the Chinese-character count; minutes is the least m with m·wpm ≥ words, and is undefined (`Infinity` or `NaN`) for wpm 0 |
| YtDlp.ProxyParam | utils/yt-dlp-util.js:9-11 | empty exactly when overseas, else `--proxy <proxy>` |
| YtDlp.CookieParam | utils/yt-dlp-util.js:20-22 | non-empty exactly when a cookie path is set and the url contains `youtu` |
| YtDlp.ThumbnailName | utils/yt-dlp-util.js:106 | an empty prefix becomes `thumbnail`, a non-empty prefix is kept as given |
| YtDlp.OutputName | utils/yt-dlp-util.js:168 | an empty name becomes `temp_download`, a non-empty name is kept as given |
| YtDlp.SectionParam | utils/yt-dlp-util.js:176-178 | the section and format flags appear exactly when the url contains `youtu` |
| YtDlp.SectionTemplate | utils/yt-dlp-util.js:177 | the section template is the words `--download-sections`, `"*range"`, `-f`, `"bv…"` followed by a blank |
| YtDlp.QueriesShareOptions | utils/yt-dlp-util.js:45-73 | duration and title commands share their options; only the title command ends with `--encoding UTF-8` |
| YtDlp.DurationEndsWithUrl | utils/yt-dlp-util.js:45 | the duration command ends with the quoted url, without the encoding flag |
| YtDlp.MusicTakesPrecedence | utils/yt-dlp-util.js:170-173 | a url containing `music` gets the flac command, whatever the threads, graphics and range |
| YtDlp.MusicCommandWords | utils/yt-dlp-util.js:173 | the music command's words are `yt-dlp -x --audio-format flac -f ba`, cookie, proxy, `-P`, `-o "<name>.flac"`, url, with no `-N` |
| YtDlp.VideoCommandWords | utils/yt-dlp-util.js:176-180 | the video command's words carry `-N n` and `--concurrent-fragments n` with the same n |
| YtDlp.QueryOutcome | utils/yt-dlp-util.js:46-55 | an exec error rejects; otherwise the trimmed stdout resolves |
| YtDlp.ThumbnailFilename | utils/yt-dlp-util.js:117-131 | without the marker the result is `<name>.png`; any other result is a name free of path separators |
| YtDlp.ThumbnailFilenameOfReport | utils/yt-dlp-util.js:117-123 | a `Writing thumbnail to: dir/file` line yields `file` |
| YtDlp.ThumbnailCommandWords | utils/yt-dlp-util.js:106-107 | split on spaces, the thumbnail command gives exactly its words: png conversion without the video, the cookie and proxy flags, the quoted url, then `-P "<path>" -o "<name>.%(ext)s"` with the name `thumbnail` when no prefix is given |
| YtDlp.DefaultThumbnailName | utils/yt-dlp-util.js:106-131 | with no prefix and no thumbnail report in the output, the download resolves with `thumbnail.png` |
| YtDlp.ThumbnailFallback | utils/yt-dlp-util.js:124-131 | output without the marker yields `<name>.png` |
| YtDlp.ThumbnailOutcome | utils/yt-dlp-util.js:109-133 | an exec error rejects; otherwise the parsed file name resolves |
| YtDlp.HelperOutcome | utils/yt-dlp-util.js:185-192 | an exec error rejects; otherwise stdout resolves unchanged |
| Tdl.ProxyPart | utils/tdl-util.js:16-43 | empty exactly when overseas, else `--proxy <addr>` |
| Tdl.ConcurrencyPart | utils/tdl-util.js:17 | empty exactly when N ≤ 1, else `-t N -l N` |
| Tdl.DownloadCommandWords | utils/tdl-util.js:18 | the download command's words are `tdl dl -u url -d path`, then the concurrency and proxy parts |
| Tdl.ForwardCommandWords | utils/tdl-util.js:44 | the forward command's words are `tdl forward --from url`, then the proxy part |
| Tdl.ExecOutcome | utils/tdl-util.js:20-30 | resolves with stdout exactly when there is no error and stderr is empty; rejections carry the label |
| Tdl.ErrorWinsOverOutput | utils/tdl-util.js:21-24 | an exec error rejects with its message whatever stdout and stderr hold |
| Tdl.StartTdl | utils/tdl-util.js:13-32 | runs the download command and settles by `ExecOutcome` with the `[R插件][TDL]` label |
| Tdl.SaveTdl | utils/tdl-util.js:41-57 | runs the forward command and settles by `ExecOutcome` with the `[R插件][TDL保存]` label |
| Naming.CurDownloadPath | apps/RCtools.js:968-970 | the chat directory starts with the configured prefix and extends it |
| Naming.GroupPathAndTarget | apps/RCtools.js:976-980 | the group path is the chat directory and the target is `temp.mp4` inside it |
| Naming.DirectoriesSeparateChats | apps/RCtools.js:968-970 | two events share a download directory exactly when their chat ids agree |
| Naming.PartNamesDistinct | apps/RCtools.js:1082 | `${target}.part${i}` names differ exactly when the indices differ, and none is the target |
| Naming.TargetAndPartsInDirectory | apps/RCtools.js:976-980 | the target and every part are entries directly inside the chat directory |
| Naming.CaptureNamesAgree | apps/RCtools.js:169-203 | when the directory has no `flv`, the stale file removed in compatibility mode is the converted `.mp4` file |
| Naming.CaptureNamesDivergeOnFlvDirectory | apps/RCtools.js:172-203 | with `flv` in the directory, `replace('flv','mp4')` rewrites the directory instead: the two names differ |
| Download.ChooseStrategy | apps/RCtools.js:1026-1034 | one thread means single-thread; otherwise method 1 means aria2, method 2 axel, anything else the ranged download (each an iff) |
| Download.StrategyFollowsMethodTable | apps/RCtools.js:1028-1031 | the method table's values 0, 1, 2 select the native, Aria2 and axel strategies |
| Download.PartitionShape | apps/RCtools.js:1059-1067 | range 0 starts at 0, the last ends at L-1, consecutive ranges are adjacent, and N·partSize ≥ L |
| Download.TilingCondition | apps/RCtools.js:1059-1067 | every range lies inside the resource exactly when (N-1)·partSize ≤ L-1 |
| Download.PartitionOfHundredOnThree | apps/RCtools.js:1059-1067 | L=100, N=3 gives [0,33], [34,67], [68,99] |
| Download.PartitionOfFiveOnFour | apps/RCtools.js:1059-1067 | L=5, N=4 gives an overlong range [4,5] and an inverted one [6,4] |
| Download.DownloadWithMultiThread | apps/RCtools.js:1045-1120 | the result and the new tree are `MultiThreadOutcome` of the old tree |
| Download.WriteParts | apps/RCtools.js:1062-1098 | writes each ranged response to its part file, in index order, as `PartsWritten` |
| Download.AssembleTarget | apps/RCtools.js:1100-1116 | removes the target, opens it for appending, appends the parts, as `AssemblyOutcome` |
| Download.AppendPart | apps/RCtools.js:1103-1110 | appends one part to the target and then unlinks it; the new disk and the success flag are exactly one `AppendStep`: when the part is missing or the target cannot be written nothing changes and the flag is false, otherwise the part's bytes follow the target's and the part is gone |
| Download.AppendParts | apps/RCtools.js:1102-1112 | appends and unlinks the parts in index order, stopping at the first failure, as `AppendedParts` |
| Download.MultiThreadAssembles | apps/RCtools.js:1082-1116 | when every range answers, the result is the group path, the target holds the parts concatenated in index order, no part remains, nothing else changes |
| Download.MultiThreadDownloadsResource | apps/RCtools.js:1045-1116 | when the server serves slices of one resource, the target ends up holding exactly that resource |
| Download.FailedPartKeepsTarget | apps/RCtools.js:1098-1119 | a failed range makes the download resolve `undefined` and leaves any old target untouched |
| Download.EnsuredDirIsReady | apps/RCtools.js:997 | after `mkdirIfNotExists`, the chat directory is ready for the ranged download unless a file or directory is in the way |
| Download.AppendHeaders | apps/RCtools.js:1142-1146 | the earlier arguments are kept and one flag per header follows, in the order the headers are listed |
| Download.Aria2Args | apps/RCtools.js:1131-1152 | url, `--out`, `--dir`, `--user-agent`, `--max-connection-per-server=N`, `--split=N`, one `--header` per header in order, then `--all-proxy` last when a proxy is set |
| Download.AxelArgs | apps/RCtools.js:1202-1216 | `-n N`, `-o target`, `-U agent`, the bare url, one `-H` per header in order, then `--proxy` last when a proxy is set |
| Download.Aria2CommandStartsWithUrl | apps/RCtools.js:1158 | the aria2 command starts `aria2c "url" --out="temp.mp4"` |
| Download.WaitForTarget | apps/RCtools.js:1170-1186 | resolves on the first tick that finds the target, even on tick 6; otherwise rejects after exactly 6 ticks, 3000 ms apart |
| Download.DownloadWithAccelerator | apps/RCtools.js:1154-1255 | a failed removal rethrows before any command runs; otherwise the command is launched, and it resolves exactly when some tick finds the target, which then holds the tool's output; when no tick finds it, the disk is the one the removal left |
| Download.DownloadWithSingleThread | apps/RCtools.js:1264-1287 | removal or request errors resolve `undefined`; a write error rejects; otherwise the target holds the body and the group path resolves |
| Download.AcceleratorOutcomeShape | apps/RCtools.js:1154-1255 | the command is launched exactly when the stale-target removal passes, and the download never resolves `undefined`; a resolved download leaves the tool's output at the target and changes nothing else, and an unresolved one only removes the stale target |
| Download.SingleThreadOutcomeShape | apps/RCtools.js:1264-1287 | the single-thread download changes no path but the target; it resolves with the directory exactly when removal, request and write all succeed, the target then holding the body; every rejection is the write error |
| Download.EnsuredTargetWritable | apps/RCtools.js:1155-1178 | once the chat directory is ensured and the stale target removed, `temp.mp4` can be written, so an accelerator's file can appear there |
| Download.DownloadVideo | apps/RCtools.js:990-1036 | a directory error rejects with the disk unchanged; otherwise the chosen strategy runs on the disk with the directory ensured, and the settlement, the whole new disk and the launched command are that strategy's outcome (the ranged, single-thread or accelerator outcome, an accelerator's argument list starting with its fixed arguments); a resolved accelerator download leaves the tool's output at `temp.mp4` |
| Bili.ValuesForMeaning | apps/RCtools.js:347 | a key has values exactly when some query piece carries it, and each value is the value of such a piece |
| Bili.ValuesForAppend | apps/RCtools.js:347 | values come in the order of their pieces: those of earlier pieces before those of later ones |
| Bili.PageParamReadsPageNumber | apps/RCtools.js:346-348 | a link `base?p=k` gives parameter k |
| Bili.SelectPage | apps/RCtools.js:350-385 | with several pages, page p when 0 < p ≤ count and the first page otherwise, with its part title; with one page the total duration and no part title; p, or 1, as the title page |
| Bili.SelectedPageMatchesTitle | apps/RCtools.js:379-385 | for an in-range or missing p, the duration limit is judged on the page the title names |
| Bili.OutOfRangePageKeepsNumber | apps/RCtools.js:350-385 | `?p=9` on three pages checks the first page but keeps 9 as the title page |
| Bili.FinalTitle | apps/RCtools.js:497-501 | the title gains `\|{p}P: {part}` exactly when the part title is non-empty and differs from the main title |
| Bili.SinglePageTitle | apps/RCtools.js:497-501 | a single-page video never gets a part suffix |
| Bili.LinkedPageTitle | apps/RCtools.js:497-501 | `?p=k` in range titles with `\|kP: ` and page k's part |
| Bili.WithoutQuery | apps/RCtools.js:668-670 | the url up to its first `?`, or the whole url |
| Bili.DynamicId | apps/RCtools.js:666-671 | the id is the non-empty `/`-free tail of the url without its query; it throws exactly when that url is empty or ends with `/` |
| Bili.DynamicIdOfLink | apps/RCtools.js:666-671 | `…/id?query` and `…/id` both give `id` |
| Controls.Find | apps/RCtools.js:1301 | `find` returns the name exactly when it is in the list |
| Controls.IsEnableResolve | apps/RCtools.js:1294-1304 | a null blacklist enables everything; otherwise a name is enabled exactly when it is not listed |
| Controls.BlacklistingDisablesOnlyThatName | apps/RCtools.js:1294-1304 | adding a name to the blacklist disables that name and no other |
| Controls.Redis.IsOverseasServer | apps/RCtools.js:1310-1324 | forced gives true; a missing key is set to `{os:false}` and gives false; otherwise the stored `os` |
| Controls.FirstUseRecordsDomestic | apps/RCtools.js:1316-1321 | the first unforced call answers false and records only `{os:false}` |
| Controls.OverseasSettles | apps/RCtools.js:1310-1324 | after one call, later calls give the same answer and change nothing |
| Controls.ForcedIsOverseas | apps/RCtools.js:1312-1314 | a forced server is overseas and the store is untouched |
| Delivery.SizeInMegabytes | apps/RCtools.js:1339 | `floor(size/1048576)`: the largest mb with mb·1048576 ≤ size |
| Delivery.UploadAction | apps/RCtools.js:1363-1370 | ICQQ uploads through the group file system, other adapters send a group file |
| Delivery.SendVideoToUpload | apps/RCtools.js:1332-1355 | the chat requests, new tree and settlement are `DeliveryOutcome` of the old tree |
| Delivery.MissingVideoOnlyReplies | apps/RCtools.js:1335-1337 | a missing video gets only the "视频不存在" reply and nothing is deleted |
| Delivery.OversizeVideoIsUploadedAndKept | apps/RCtools.js:1341-1346 | a video above the limit gets the notice and an upload, is never sent, and stays on disk after a successful upload |
| Delivery.SmallVideoIsSentAndDeleted | apps/RCtools.js:1347-1354 | a video within the limit is sent and then deleted, whether or not the send succeeds |
| Delivery.FailedUploadDeletes | apps/RCtools.js:1350-1354 | a failed upload leads to the catch, which deletes the video |
| Delivery.DeliveryTouchesOnlyTheVideo | apps/RCtools.js:1332-1355 | no entry other than the video changes |

## Left out

- `PQueue` scheduling in `downloadVideo` is left out: the queued task is simply run, because concurrency is outside the model.
- Asynchronous interleaving is left out. The parallel ranged requests are written one after another in index order. `Promise.allSettled` in `deleteFolderRecursive` is modelled as deleting the children in listing order.
- Network requests are parameters (`Download.Network`, `Common.Attempt`). This covers axios, fetch, the HEAD `content-length`, the ranged responses and whether an accelerator's output exists at each tick.
- `child_process.exec` is left out, with its callbacks. The model produces the command string and takes the reported error, stdout and stderr as a `Process.ExecReport`. The aria2 and axel exec callbacks throw inside a callback, where no promise sees the error, so they are not modelled.
- Timers are left out. `setInterval` becomes one loop iteration per tick, with the elapsed time computed; the capture `setTimeout` and cancel token are not modelled.
- Stream events are reduced to whole-file operations. The `error` event of the assembly writer, and permission or disk-full errors, are not modelled.
- Chat transport (`e.reply`, `segment`, `fs.upload`, `sendFile`) becomes a recorded action list plus a success flag. A rejected reply that is returned without being awaited is not modelled.
- Redis is a map of parsed values (`Controls.Redis`); its JSON serialisation is not modelled.
- `querystring` percent-decoding and `+` to space are left out, as is its 1000-key limit. Only the raw `p=` pieces are read.
- The `HttpsProxyAgent` href is taken as a given string; URL normalisation is not modelled.
- Header order is taken as given. `Object.entries` order, with integer-like keys first, is not modelled.
- `toFixed` float formatting in `dataProcessing` and in the duration messages is left abstract, as a parameter function.
- Strings are sequences of code points; UTF-16 length and surrogates are not modelled.
- Line terminators in a dynamic link are left out: the model assumes the link passed to the `(?!.*\/)` regex contains none.
- `path.resolve` in `startTDL` and `path.join` in `deleteFolderRecursive` are left out. Paths are the component lists of `FileGuard.Components`, and `..` is not resolved.
- The link-recognition regexes, message formatting beyond the titles modelled here, and every handler other than the ones named above are left out.
- Naming.CaptureNamesAgree: only the two file names are modelled; the capture stream, the ffmpeg conversion and the unlink of the `.flv` are not.
- Common.EstimateReadingTime: JavaScript's `Infinity`/`NaN` for `wpm == 0` are represented by `None`; negative `wpm` is given the ceiling of the exact quotient.
- Download.DownloadVideo: the value it resolves with is the chat directory as a component list, not the `groupPath` string.
- FileGuard.FileSystem.StatSize: a directory reports size 0, where `statSync` gives the size the operating system records for it (often 4096). `sendVideoToUpload` floors the size to whole MiB, so the two differ there only for a directory of 1 MiB or more.
- Download.DownloadWithAccelerator: what the tool writes is modelled only as its finished output at the moment a tick finds it; a partial file, a file that appears after the sixth tick and anything the tool writes besides `temp.mp4` are not on the modelled disk.
