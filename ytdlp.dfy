/** The command builders, the exec decisions and the thumbnail-name parse of utils/yt-dlp-util.js. */
module YtDlp {
  import opened Wrappers
  import opened Text
  import opened Process

  // ---------------------------------------------------------------------------
  // Parameters

  function ProxyWords(isOversea: bool, proxy: string): seq<string> {
    if isOversea then [""] else ["--proxy", proxy]
  }

  /** `constructProxyParam(isOversea, proxy)`. */
  function ProxyParam(isOversea: bool, proxy: string): (r: string)
    ensures r == "" <==> isOversea
    ensures r == Join(ProxyWords(isOversea, proxy), " ")
  {
    JoinTwo("--proxy", proxy, " ");
    if isOversea then "" else "--proxy " + proxy
  }

  /** Cookies are only passed to YouTube. */
  predicate WantsCookies(url: string, cookiePath: string) {
    cookiePath != "" && Contains(url, "youtu")
  }

  function CookieWords(url: string, cookiePath: string): seq<string> {
    if WantsCookies(url, cookiePath) then ["--cookies", cookiePath] else [""]
  }

  /** `constructCookiePath(url, cookiePath)`. */
  function CookieParam(url: string, cookiePath: string): (r: string)
    ensures r != "" <==> cookiePath != "" && Contains(url, "youtu")
    ensures r == Join(CookieWords(url, cookiePath), " ")
  {
    JoinTwo("--cookies", cookiePath, " ");
    if cookiePath != "" && Contains(url, "youtu") then "--cookies " + cookiePath else ""
  }

  /** `constructEncodingParam(url)`: the same for every url. */
  function EncodingParam(url: string): string {
    "--encoding UTF-8"
  }

  /** `thumbnailFilenamePrefix || 'thumbnail'`. */
  function ThumbnailName(prefix: string): (r: string)
    ensures r != ""
    ensures prefix != "" ==> r == prefix
    ensures prefix == "" ==> r == "thumbnail"
  {
    if prefix == "" then "thumbnail" else prefix
  }

  /** `outputFilename || 'temp_download'`. */
  function OutputName(outputFilename: string): (r: string)
    ensures r != ""
    ensures outputFilename != "" ==> r == outputFilename
    ensures outputFilename == "" ==> r == "temp_download"
  {
    if outputFilename == "" then "temp_download" else outputFilename
  }

  // ---------------------------------------------------------------------------
  // Commands

  /** The options the duration and title queries share after their verb. */
  function QueryOptions(url: string, isOversea: bool, proxy: string, cookiePath: string): string {
    Join(["--skip-download", CookieParam(url, cookiePath), ProxyParam(isOversea, proxy), Quoted(url)], " ")
  }

  /** The command of `ytDlpGetDuration`. */
  function DurationCommand(url: string, isOversea: bool, proxy: string, cookiePath: string): string {
    Join(["yt-dlp", "--get-duration", "--skip-download", CookieParam(url, cookiePath),
          ProxyParam(isOversea, proxy), Quoted(url)], " ")
  }

  /** The command of `ytDlpGetTilt`. */
  function TitleCommand(url: string, isOversea: bool, proxy: string, cookiePath: string): string {
    Join(["yt-dlp", "--get-title", "--skip-download", CookieParam(url, cookiePath),
          ProxyParam(isOversea, proxy), Quoted(url), EncodingParam(url)], " ")
  }

  /** The command of `ytDlpGetThumbnail`. */
  function ThumbnailCommand(path: string, url: string, isOversea: bool, proxy: string,
                            cookiePath: string, prefix: string): string {
    Join(["yt-dlp", "--write-thumbnail", "--convert-thumbnails", "png", "--skip-download",
          CookieParam(url, cookiePath), ProxyParam(isOversea, proxy), Quoted(url),
          "-P", Quoted(path), "-o", Quoted(ThumbnailName(prefix) + ".%(ext)s")], " ")
  }

  function SectionWords(url: string, graphics: string, timeRange: string): seq<string> {
    if Contains(url, "youtu") then
      ["--download-sections", Quoted("*" + timeRange), "-f", Quoted("bv" + graphics + "[ext=mp4]+ba[ext=m4a]"), ""]
    else [""]
  }

  /** The section and format flags of `ytDlpHelper`, only for YouTube; note the trailing space. */
  function SectionParam(url: string, graphics: string, timeRange: string): (r: string)
    ensures r == "" <==> !Contains(url, "youtu")
    ensures r == Join(SectionWords(url, graphics, timeRange), " ")
  {
    SectionTemplate(graphics, timeRange);
    if Contains(url, "youtu") then
      "--download-sections " + Quoted("*" + timeRange) + " -f " + Quoted("bv" + graphics + "[ext=mp4]+ba[ext=m4a]") + " "
    else ""
  }

  /** Four words joined with a trailing separator. */
  lemma JoinTrailing(a: string, b: string, c: string, d: string)
    ensures Join([a, b, c, d, ""], " ") == a + " " + b + " " + c + " " + d + " "
  {
    JoinFour(a, b, c, d, " ");
    JoinAppend([a, b, c, d], [""], " ");
    assert [a, b, c, d] + [""] == [a, b, c, d, ""];
  }

  lemma SectionTemplate(graphics: string, timeRange: string)
    ensures "--download-sections " + Quoted("*" + timeRange) + " -f " + Quoted("bv" + graphics + "[ext=mp4]+ba[ext=m4a]") + " "
         == Join(["--download-sections", Quoted("*" + timeRange), "-f", Quoted("bv" + graphics + "[ext=mp4]+ba[ext=m4a]"), ""], " ")
  {
    var a, b := Quoted("*" + timeRange), Quoted("bv" + graphics + "[ext=mp4]+ba[ext=m4a]");
    JoinTrailing("--download-sections", a, "-f", b);
    assert "--download-sections " == "--download-sections" + " ";
    assert " -f " == " " + "-f" + " ";
  }

  /** The audio-only command `ytDlpHelper` builds for a YouTube Music url. */
  function MusicCommand(path: string, url: string, isOversea: bool, proxy: string,
                        outputFilename: string, cookiePath: string): string {
    Join(["yt-dlp", "-x", "--audio-format", "flac", "-f", "ba", CookieParam(url, cookiePath),
          ProxyParam(isOversea, proxy), "-P", Quoted(path), "-o",
          Quoted(OutputName(outputFilename) + ".flac"), Quoted(url)], " ")
  }

  /** The video command `ytDlpHelper` builds for every other url. */
  function VideoCommand(path: string, url: string, isOversea: bool, proxy: string, maxThreads: int,
                        outputFilename: string, graphics: string, timeRange: string, cookiePath: string): string {
    Join(["yt-dlp", "-N", IntToString(maxThreads), SectionParam(url, graphics, timeRange),
          "--concurrent-fragments", IntToString(maxThreads), CookieParam(url, cookiePath),
          ProxyParam(isOversea, proxy), "-P", Quoted(path), "-o",
          Quoted(OutputName(outputFilename) + ".%(ext)s"), Quoted(url)], " ")
  }

  /** The command of `ytDlpHelper`: the `music` test comes before every other. */
  function HelperCommand(path: string, url: string, isOversea: bool, proxy: string, maxThreads: int,
                         outputFilename: string, graphics: string, timeRange: string, cookiePath: string): string {
    if Contains(url, "music") then MusicCommand(path, url, isOversea, proxy, outputFilename, cookiePath)
    else VideoCommand(path, url, isOversea, proxy, maxThreads, outputFilename, graphics, timeRange, cookiePath)
  }

  // ---------------------------------------------------------------------------
  // Exec decisions

  /** The duration and title queries reject with the exec error, else resolve
      with the trimmed output. */
  function QueryOutcome(report: ExecReport): (r: Result<string, string>)
    ensures r.Err? <==> report.error.Some?
    ensures r.Ok? ==> r.value == Trim(report.stdout)
  {
    if report.error.Some? then Err(report.error.value) else Ok(Trim(report.stdout))
  }

  const THUMBNAIL_MARKER: string := "Writing thumbnail to: "

  /**
   * The file name `ytDlpGetThumbnail` resolves with: the last `/` or `\`
   * segment of the trimmed rest of the line after the first
   * `Writing thumbnail to: `; `<name>.png` when there is no such line or the
   * rest of it is empty.
   */
  function ThumbnailFilename(stdout: string, finalName: string): (r: string)
    ensures IndexOf(stdout, THUMBNAIL_MARKER, 0).None? ==> r == finalName + ".png"
    ensures r == finalName + ".png" || forall i :: 0 <= i < |r| ==> !IsPathSeparator(r[i])
  {
    NameAfterMarker(stdout, THUMBNAIL_MARKER, finalName)
  }

  /** The same parse for any marker text. */
  function NameAfterMarker(stdout: string, marker: string, finalName: string): string {
    NameAt(IndexOf(stdout, marker, 0), stdout, marker, finalName)
  }

  /** The parse once the marker has been looked for: `found` is where it starts. */
  function NameAt(found: Option<nat>, stdout: string, marker: string, finalName: string): string
    requires found.Some? ==> found.value + |marker| <= |stdout|
  {
    match found
    case None => finalName + ".png"
    case Some(i) => CapturedName(RestOfLine(stdout[i + |marker|..]), finalName)
  }

  /** The name taken from the captured rest of the report line. */
  function CapturedName(captured: string, finalName: string): string {
    if captured == "" then finalName + ".png" else LastSegment(Trim(captured))
  }

  /** The thumbnail download rejects with the exec error, else resolves with the parsed name. */
  function ThumbnailOutcome(report: ExecReport, prefix: string): (r: Result<string, string>)
    ensures r.Err? <==> report.error.Some?
    ensures r.Ok? ==> r.value == ThumbnailFilename(report.stdout, ThumbnailName(prefix))
  {
    if report.error.Some? then Err(report.error.value)
    else Ok(ThumbnailFilename(report.stdout, ThumbnailName(prefix)))
  }

  /** `ytDlpHelper` rejects with the exec error, else resolves with the raw output. */
  function HelperOutcome(report: ExecReport): (r: Result<string, string>)
    ensures r.Err? <==> report.error.Some?
    ensures r.Ok? ==> r.value == report.stdout
  {
    if report.error.Some? then Err(report.error.value) else Ok(report.stdout)
  }

  // ---------------------------------------------------------------------------
  // Properties

  /** The duration and title queries differ only in their verb and in the
      trailing encoding flag, which only the title query has. */
  lemma QueriesShareOptions(url: string, isOversea: bool, proxy: string, cookiePath: string)
    ensures DurationCommand(url, isOversea, proxy, cookiePath)
         == "yt-dlp" + " " + "--get-duration" + " " + QueryOptions(url, isOversea, proxy, cookiePath)
    ensures TitleCommand(url, isOversea, proxy, cookiePath)
         == "yt-dlp" + " " + "--get-title" + " " + QueryOptions(url, isOversea, proxy, cookiePath)
          + " " + EncodingParam(url)
  {
    var options := ["--skip-download", CookieParam(url, cookiePath), ProxyParam(isOversea, proxy), Quoted(url)];
    var duration := ["yt-dlp", "--get-duration"];
    var title := ["yt-dlp", "--get-title"];
    var encoding := [EncodingParam(url)];
    JoinTwo("yt-dlp", "--get-duration", " ");
    JoinTwo("yt-dlp", "--get-title", " ");
    JoinAppend(duration, options, " ");
    assert duration + options == ["yt-dlp", "--get-duration", "--skip-download", CookieParam(url, cookiePath),
                                  ProxyParam(isOversea, proxy), Quoted(url)];
    JoinAppend(title, options, " ");
    JoinAppend(title + options, encoding, " ");
    assert title + options + encoding == ["yt-dlp", "--get-title", "--skip-download", CookieParam(url, cookiePath),
                                          ProxyParam(isOversea, proxy), Quoted(url), EncodingParam(url)];
  }

  /** The duration query ends with the quoted url, so it carries no encoding flag. */
  lemma DurationEndsWithUrl(url: string, isOversea: bool, proxy: string, cookiePath: string)
    ensures var c := DurationCommand(url, isOversea, proxy, cookiePath);
      |c| >= |Quoted(url)| + 1 && c[|c| - |Quoted(url)| - 1..] == " " + Quoted(url)
  {
    var init := ["yt-dlp", "--get-duration", "--skip-download", CookieParam(url, cookiePath), ProxyParam(isOversea, proxy)];
    JoinAppend(init, [Quoted(url)], " ");
    assert init + [Quoted(url)]
        == ["yt-dlp", "--get-duration", "--skip-download", CookieParam(url, cookiePath), ProxyParam(isOversea, proxy), Quoted(url)];
  }

  /** For a YouTube Music url the audio command is built whatever the thread
      count, quality and time range are, even when the url also contains `youtu`. */
  lemma MusicTakesPrecedence(path: string, url: string, isOversea: bool, proxy: string,
                             maxThreads: int, maxThreads': int, outputFilename: string,
                             graphics: string, graphics': string, timeRange: string, timeRange': string,
                             cookiePath: string)
    requires Contains(url, "music")
    ensures HelperCommand(path, url, isOversea, proxy, maxThreads, outputFilename, graphics, timeRange, cookiePath)
         == HelperCommand(path, url, isOversea, proxy, maxThreads', outputFilename, graphics', timeRange', cookiePath)
    ensures HelperCommand(path, url, isOversea, proxy, maxThreads, outputFilename, graphics, timeRange, cookiePath)
         == MusicCommand(path, url, isOversea, proxy, outputFilename, cookiePath)
  {
  }

  lemma QuotedFree(s: string)
    requires Free(s, ' ')
    ensures Free(Quoted(s), ' ')
  {
  }

  /** The words after the generated flags: directory, output template, url. */
  function OutputWords(path: string, name: string, url: string): seq<string> {
    ["-P", Quoted(path), "-o", Quoted(name), Quoted(url)]
  }

  /** The music command word by word; an omitted flag leaves one empty word. */
  function MusicWords(path: string, url: string, isOversea: bool, proxy: string,
                      outputFilename: string, cookiePath: string): seq<string> {
    ["yt-dlp", "-x", "--audio-format", "flac", "-f", "ba"]
      + CookieWords(url, cookiePath) + ProxyWords(isOversea, proxy)
      + OutputWords(path, OutputName(outputFilename) + ".flac", url)
  }

  /** The video command word by word. */
  function VideoWords(path: string, url: string, isOversea: bool, proxy: string, maxThreads: int,
                      outputFilename: string, graphics: string, timeRange: string, cookiePath: string): seq<string> {
    ["yt-dlp", "-N", IntToString(maxThreads)] + SectionWords(url, graphics, timeRange)
      + ["--concurrent-fragments", IntToString(maxThreads)]
      + CookieWords(url, cookiePath) + ProxyWords(isOversea, proxy)
      + OutputWords(path, OutputName(outputFilename) + ".%(ext)s", url)
  }

  lemma MusicCommandJoin(path: string, url: string, isOversea: bool, proxy: string,
                         outputFilename: string, cookiePath: string)
    ensures MusicCommand(path, url, isOversea, proxy, outputFilename, cookiePath)
         == Join(MusicWords(path, url, isOversea, proxy, outputFilename, cookiePath), " ")
  {
    var name := OutputName(outputFilename) + ".flac";
    var head := ["yt-dlp", "-x", "--audio-format", "flac", "-f", "ba"];
    var cookie, proxyPart := CookieParam(url, cookiePath), ProxyParam(isOversea, proxy);
    var cw, pw, ow := CookieWords(url, cookiePath), ProxyWords(isOversea, proxy), OutputWords(path, name, url);
    assert head + [cookie] + [proxyPart] + ow
        == ["yt-dlp", "-x", "--audio-format", "flac", "-f", "ba", cookie, proxyPart,
            "-P", Quoted(path), "-o", Quoted(name), Quoted(url)];
    JoinAppend(head + [cookie] + [proxyPart], ow, " ");
    JoinAppend(head + [cookie], [proxyPart], " ");
    JoinAppend(head, [cookie], " ");
    JoinAppend(head + cw + pw, ow, " ");
    JoinAppend(head + cw, pw, " ");
    JoinAppend(head, cw, " ");
  }

  lemma VideoCommandJoin(path: string, url: string, isOversea: bool, proxy: string, maxThreads: int,
                         outputFilename: string, graphics: string, timeRange: string, cookiePath: string)
    ensures VideoCommand(path, url, isOversea, proxy, maxThreads, outputFilename, graphics, timeRange, cookiePath)
         == Join(VideoWords(path, url, isOversea, proxy, maxThreads, outputFilename, graphics, timeRange, cookiePath), " ")
  {
    var n := IntToString(maxThreads);
    var name := OutputName(outputFilename) + ".%(ext)s";
    var head, middle := ["yt-dlp", "-N", n], ["--concurrent-fragments", n];
    var section, cookie, proxyPart := SectionParam(url, graphics, timeRange), CookieParam(url, cookiePath), ProxyParam(isOversea, proxy);
    var sw, cw, pw := SectionWords(url, graphics, timeRange), CookieWords(url, cookiePath), ProxyWords(isOversea, proxy);
    var ow := OutputWords(path, name, url);
    VideoLayout("yt-dlp", "-N", n, section, "--concurrent-fragments", n, cookie, proxyPart,
                "-P", Quoted(path), "-o", Quoted(name), Quoted(url));
    JoinThreeSlots(head, section, sw, middle, cookie, cw, proxyPart, pw, ow, " ");
  }

  /** The slots of the video command's word list. */
  lemma VideoLayout(a0: string, a1: string, a2: string, b: string, c0: string, c1: string, d: string, e: string,
                    f0: string, f1: string, f2: string, f3: string, f4: string)
    ensures [a0, a1, a2] + [b] + [c0, c1] + [d] + [e] + [f0, f1, f2, f3, f4]
         == [a0, a1, a2, b, c0, c1, d, e, f0, f1, f2, f3, f4]
  {
  }

  lemma OutputWordsFree(path: string, name: string, url: string)
    requires Free(path, ' ') && Free(name, ' ') && Free(url, ' ')
    ensures AllFree(OutputWords(path, name, url), ' ')
  {
    QuotedFree(path);
    QuotedFree(name);
    QuotedFree(url);
  }

  lemma MusicWordsFree(path: string, url: string, isOversea: bool, proxy: string,
                       outputFilename: string, cookiePath: string)
    requires Free(path, ' ') && Free(url, ' ') && Free(proxy, ' ') && Free(cookiePath, ' ') && Free(outputFilename, ' ')
    ensures AllFree(MusicWords(path, url, isOversea, proxy, outputFilename, cookiePath), ' ')
  {
    var head := ["yt-dlp", "-x", "--audio-format", "flac", "-f", "ba"];
    var cw, pw := CookieWords(url, cookiePath), ProxyWords(isOversea, proxy);
    var ow := OutputWords(path, OutputName(outputFilename) + ".flac", url);
    assert AllFree(head, ' ');
    OutputWordsFree(path, OutputName(outputFilename) + ".flac", url);
    AllFreeAppend(head, cw, ' ');
    AllFreeAppend(head + cw, pw, ' ');
    AllFreeAppend(head + cw + pw, ow, ' ');
  }

  lemma ThreadWordsFree(n: int)
    ensures AllFree(["yt-dlp", "-N", IntToString(n)], ' ')
    ensures AllFree(["--concurrent-fragments", IntToString(n)], ' ')
  {
    IntToStringFree(n, ' ');
  }

  lemma SectionWordsFree(url: string, graphics: string, timeRange: string)
    requires Free(graphics, ' ') && Free(timeRange, ' ')
    ensures AllFree(SectionWords(url, graphics, timeRange), ' ')
  {
    QuotedFree("*" + timeRange);
    QuotedFree("bv" + graphics + "[ext=mp4]+ba[ext=m4a]");
  }

  lemma VideoWordsFree(path: string, url: string, isOversea: bool, proxy: string, maxThreads: int,
                       outputFilename: string, graphics: string, timeRange: string, cookiePath: string)
    requires Free(path, ' ') && Free(url, ' ') && Free(proxy, ' ') && Free(cookiePath, ' ')
    requires Free(outputFilename, ' ') && Free(graphics, ' ') && Free(timeRange, ' ')
    ensures AllFree(VideoWords(path, url, isOversea, proxy, maxThreads, outputFilename, graphics, timeRange, cookiePath), ' ')
  {
    var n := IntToString(maxThreads);
    var head, middle := ["yt-dlp", "-N", n], ["--concurrent-fragments", n];
    var sw, cw, pw := SectionWords(url, graphics, timeRange), CookieWords(url, cookiePath), ProxyWords(isOversea, proxy);
    var ow := OutputWords(path, OutputName(outputFilename) + ".%(ext)s", url);
    ThreadWordsFree(maxThreads);
    SectionWordsFree(url, graphics, timeRange);
    OutputWordsFree(path, OutputName(outputFilename) + ".%(ext)s", url);
    AllFreeAppend(head, sw, ' ');
    AllFreeAppend(head + sw, middle, ' ');
    AllFreeAppend(head + sw + middle, cw, ' ');
    AllFreeAppend(head + sw + middle + cw, pw, ' ');
    AllFreeAppend(head + sw + middle + cw + pw, ow, ' ');
  }

  /** Split on spaces, as a shell does, the music command yields exactly
      its words: flac audio extraction, the cookie and proxy flags, then the
      directory, `<name>.flac` and the url. */
  lemma MusicCommandWords(path: string, url: string, isOversea: bool, proxy: string,
                          outputFilename: string, cookiePath: string)
    requires Free(path, ' ') && Free(url, ' ') && Free(proxy, ' ') && Free(cookiePath, ' ') && Free(outputFilename, ' ')
    ensures SplitOn(MusicCommand(path, url, isOversea, proxy, outputFilename, cookiePath), ' ')
         == MusicWords(path, url, isOversea, proxy, outputFilename, cookiePath)
  {
    MusicCommandJoin(path, url, isOversea, proxy, outputFilename, cookiePath);
    MusicWordsFree(path, url, isOversea, proxy, outputFilename, cookiePath);
    SplitJoinFree(MusicWords(path, url, isOversea, proxy, outputFilename, cookiePath), ' ');
  }

  /** Split on spaces, the video command yields exactly its words: the
      thread count after both `-N` and `--concurrent-fragments`, with the
      section and format flags between them only for YouTube. */
  lemma VideoCommandWords(path: string, url: string, isOversea: bool, proxy: string, maxThreads: int,
                          outputFilename: string, graphics: string, timeRange: string, cookiePath: string)
    requires Free(path, ' ') && Free(url, ' ') && Free(proxy, ' ') && Free(cookiePath, ' ')
    requires Free(outputFilename, ' ') && Free(graphics, ' ') && Free(timeRange, ' ')
    ensures SplitOn(VideoCommand(path, url, isOversea, proxy, maxThreads, outputFilename, graphics, timeRange, cookiePath), ' ')
         == VideoWords(path, url, isOversea, proxy, maxThreads, outputFilename, graphics, timeRange, cookiePath)
  {
    VideoCommandJoin(path, url, isOversea, proxy, maxThreads, outputFilename, graphics, timeRange, cookiePath);
    VideoWordsFree(path, url, isOversea, proxy, maxThreads, outputFilename, graphics, timeRange, cookiePath);
    SplitJoinFree(VideoWords(path, url, isOversea, proxy, maxThreads, outputFilename, graphics, timeRange, cookiePath), ' ');
  }

  /** The thumbnail command word by word: the url comes before the directory
      and the output template. */
  function ThumbnailWords(path: string, url: string, isOversea: bool, proxy: string,
                          cookiePath: string, prefix: string): seq<string> {
    ["yt-dlp", "--write-thumbnail", "--convert-thumbnails", "png", "--skip-download"]
      + CookieWords(url, cookiePath) + ProxyWords(isOversea, proxy)
      + [Quoted(url), "-P", Quoted(path), "-o", Quoted(ThumbnailName(prefix) + ".%(ext)s")]
  }

  lemma ThumbnailCommandJoin(path: string, url: string, isOversea: bool, proxy: string,
                             cookiePath: string, prefix: string)
    ensures ThumbnailCommand(path, url, isOversea, proxy, cookiePath, prefix)
         == Join(ThumbnailWords(path, url, isOversea, proxy, cookiePath, prefix), " ")
  {
    var head := ["yt-dlp", "--write-thumbnail", "--convert-thumbnails", "png", "--skip-download"];
    var tail := [Quoted(url), "-P", Quoted(path), "-o", Quoted(ThumbnailName(prefix) + ".%(ext)s")];
    var cookie, proxyPart := CookieParam(url, cookiePath), ProxyParam(isOversea, proxy);
    var cw, pw := CookieWords(url, cookiePath), ProxyWords(isOversea, proxy);
    assert head + [cookie] + [proxyPart] + tail
        == ["yt-dlp", "--write-thumbnail", "--convert-thumbnails", "png", "--skip-download",
            cookie, proxyPart, Quoted(url), "-P", Quoted(path), "-o", Quoted(ThumbnailName(prefix) + ".%(ext)s")];
    JoinAppend(head + [cookie] + [proxyPart], tail, " ");
    JoinAppend(head + [cookie], [proxyPart], " ");
    JoinAppend(head, [cookie], " ");
    JoinAppend(head + cw + pw, tail, " ");
    JoinAppend(head + cw, pw, " ");
    JoinAppend(head, cw, " ");
  }

  lemma ThumbnailWordsFree(path: string, url: string, isOversea: bool, proxy: string,
                           cookiePath: string, prefix: string)
    requires Free(path, ' ') && Free(url, ' ') && Free(proxy, ' ') && Free(cookiePath, ' ') && Free(prefix, ' ')
    ensures AllFree(ThumbnailWords(path, url, isOversea, proxy, cookiePath, prefix), ' ')
  {
    var head := ["yt-dlp", "--write-thumbnail", "--convert-thumbnails", "png", "--skip-download"];
    var cw, pw := CookieWords(url, cookiePath), ProxyWords(isOversea, proxy);
    var name := ThumbnailName(prefix) + ".%(ext)s";
    ThumbnailHeadFree();
    TemplateFree(ThumbnailName(prefix));
    ThumbnailTailFree(path, url, name);
    AllFreeAppend(head, cw, ' ');
    AllFreeAppend(head + cw, pw, ' ');
    AllFreeAppend(head + cw + pw, [Quoted(url), "-P", Quoted(path), "-o", Quoted(name)], ' ');
  }

  lemma ThumbnailHeadFree()
    ensures AllFree(["yt-dlp", "--write-thumbnail", "--convert-thumbnails", "png", "--skip-download"], ' ')
  {
  }

  lemma TemplateFree(stem: string)
    requires Free(stem, ' ')
    ensures Free(stem + ".%(ext)s", ' ')
  {
  }

  lemma ThumbnailTailFree(path: string, url: string, name: string)
    requires Free(path, ' ') && Free(url, ' ') && Free(name, ' ')
    ensures AllFree([Quoted(url), "-P", Quoted(path), "-o", Quoted(name)], ' ')
  {
    QuotedFree(url);
    QuotedFree(path);
    QuotedFree(name);
  }

  /** Split on spaces, the thumbnail command yields exactly its words: png
      conversion without the video, the cookie and proxy flags, the url, and
      it ends `-P "<path>" -o "<name>.%(ext)s"` with the name `thumbnail` when
      no prefix is given. */
  lemma ThumbnailCommandWords(path: string, url: string, isOversea: bool, proxy: string,
                              cookiePath: string, prefix: string)
    requires Free(path, ' ') && Free(url, ' ') && Free(proxy, ' ') && Free(cookiePath, ' ') && Free(prefix, ' ')
    ensures SplitOn(ThumbnailCommand(path, url, isOversea, proxy, cookiePath, prefix), ' ')
         == ThumbnailWords(path, url, isOversea, proxy, cookiePath, prefix)
  {
    ThumbnailCommandJoin(path, url, isOversea, proxy, cookiePath, prefix);
    ThumbnailWordsFree(path, url, isOversea, proxy, cookiePath, prefix);
    SplitJoinFree(ThumbnailWords(path, url, isOversea, proxy, cookiePath, prefix), ' ');
  }

  /** The parse recovers the file name yt-dlp reports: for a line
      `Writing thumbnail to: <dir>/<file>` that is the first such line, the
      result is `<file>`. */
  lemma ThumbnailFilenameOfReport(before: string, dir: string, file: string, after: string, finalName: string)
    requires forall j: nat :: j < |before| ==> !OccursAt(before + THUMBNAIL_MARKER, THUMBNAIL_MARKER, j)
    requires file != [] && !IsSpace(file[|file| - 1])
    requires forall i :: 0 <= i < |file| ==> !IsPathSeparator(file[i]) && !IsLineTerminator(file[i])
    requires dir == [] || !IsSpace(dir[0])
    requires forall i :: 0 <= i < |dir| ==> !IsLineTerminator(dir[i])
    requires after == [] || IsLineTerminator(after[0])
    ensures ThumbnailFilename(before + THUMBNAIL_MARKER + dir + "/" + file + after, finalName) == file
  {
    NameAfterMarkerOfReport(before, THUMBNAIL_MARKER, dir, file, after, finalName);
  }

  lemma NameAfterMarkerOfReport(before: string, marker: string, dir: string, file: string, after: string, finalName: string)
    requires forall j: nat :: j < |before| ==> !OccursAt(before + marker, marker, j)
    requires file != [] && !IsSpace(file[|file| - 1])
    requires forall i :: 0 <= i < |file| ==> !IsPathSeparator(file[i]) && !IsLineTerminator(file[i])
    requires dir == [] || !IsSpace(dir[0])
    requires forall i :: 0 <= i < |dir| ==> !IsLineTerminator(dir[i])
    requires after == [] || IsLineTerminator(after[0])
    ensures NameAfterMarker(before + marker + dir + "/" + file + after, marker, finalName) == file
  {
    var line := dir + "/" + file;
    var s := before + marker + (line + after);
    assert NameAfterMarker(s, marker, finalName) == NameAt(Some(|before|), s, marker, finalName) by {
      FirstOccurrenceAfter(before, marker, line + after);
    }
    assert NameAt(Some(|before|), s, marker, finalName) == CapturedName(line, finalName) by {
      FirstOccurrenceAfter(before, marker, line + after);
      ReportedLineRest(dir, file, after);
    }
    assert CapturedName(line, finalName) == file by {
      ReportedLineFile(dir, file);
    }
    assert before + marker + dir + "/" + file + after == s by {
      RegroupFour(before + marker, dir, "/", file);
      RegroupThree(before + marker, line, after);
    }
  }

  lemma OneLine(dir: string, file: string)
    requires forall i :: 0 <= i < |file| ==> !IsLineTerminator(file[i])
    requires forall i :: 0 <= i < |dir| ==> !IsLineTerminator(dir[i])
    ensures forall i :: 0 <= i < |dir + "/" + file| ==> !IsLineTerminator((dir + "/" + file)[i])
  {
    var line := dir + "/" + file;
    forall i | 0 <= i < |line| ensures !IsLineTerminator(line[i]) {
      if i < |dir| {
        assert line[i] == dir[i];
      } else if i > |dir| {
        assert line[i] == file[i - |dir| - 1];
      }
    }
  }

  /** The capture of a report line `<dir>/<file>` stops at its end. */
  lemma ReportedLineRest(dir: string, file: string, after: string)
    requires forall i :: 0 <= i < |file| ==> !IsLineTerminator(file[i])
    requires forall i :: 0 <= i < |dir| ==> !IsLineTerminator(dir[i])
    requires after == [] || IsLineTerminator(after[0])
    ensures RestOfLine(dir + "/" + file + after) == dir + "/" + file
  {
    OneLine(dir, file);
    RestOfLineUpTo(dir + "/" + file, after);
  }

  /** The captured line `<dir>/<file>` names `<file>`. */
  lemma ReportedLineFile(dir: string, file: string)
    requires file != [] && !IsSpace(file[|file| - 1])
    requires forall i :: 0 <= i < |file| ==> !IsPathSeparator(file[i])
    requires dir == [] || !IsSpace(dir[0])
    ensures LastSegment(Trim(dir + "/" + file)) == file
  {
    var line := dir + "/" + file;
    assert line[0] == if dir == [] then '/' else dir[0];
    assert line[|line| - 1] == file[|file| - 1];
    TrimUnpadded(line);
    assert line == dir + ['/'] + file;
    LastSegmentAfter(dir, '/', file);
  }

  /** Without a report line, or with an empty one, the fallback `<name>.png` is used. */
  lemma ThumbnailFallback(stdout: string, finalName: string)
    requires forall j: nat :: !OccursAt(stdout, THUMBNAIL_MARKER, j)
    ensures ThumbnailFilename(stdout, finalName) == finalName + ".png"
  {
  }

  /** With no prefix configured and no thumbnail report in the output, the
      download resolves with the default `thumbnail.png`. */
  lemma DefaultThumbnailName(report: ExecReport)
    requires report.error.None?
    requires forall j: nat :: !OccursAt(report.stdout, THUMBNAIL_MARKER, j)
    ensures ThumbnailOutcome(report, "") == Ok("thumbnail.png")
  {
    ThumbnailFallback(report.stdout, "thumbnail");
    assert "thumbnail" + ".png" == "thumbnail.png";
  }
}
