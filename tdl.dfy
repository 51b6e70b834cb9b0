/** The command builders and the exec decision of utils/tdl-util.js. */
module Tdl {
  import opened Wrappers
  import opened Text
  import opened Process

  /** The default of `videoDownloadConcurrency`. */
  const DEFAULT_CONCURRENCY: int := 1

  const START_LABEL: string := "[R插件][TDL]"
  const SAVE_LABEL: string := "[R插件][TDL保存]"

  /** The words of the proxy part; an empty part still leaves an empty word. */
  function ProxyWords(isOversea: bool, proxyAddr: string): seq<string> {
    if isOversea then [""] else ["--proxy", proxyAddr]
  }

  /** `isOversea ? '' : `--proxy ${proxyAddr}``. */
  function ProxyPart(isOversea: bool, proxyAddr: string): (r: string)
    ensures r == "" <==> isOversea
    ensures r == Join(ProxyWords(isOversea, proxyAddr), " ")
  {
    JoinTwo("--proxy", proxyAddr, " ");
    if isOversea then "" else "--proxy " + proxyAddr
  }

  function ConcurrencyWords(n: int): seq<string> {
    if n > 1 then ["-t", IntToString(n), "-l", IntToString(n)] else [""]
  }

  /** `n > 1 ? `-t ${n} -l ${n}` : ''`: one download thread needs no flags. */
  function ConcurrencyPart(n: int): (r: string)
    ensures r == "" <==> n <= 1
    ensures r == Join(ConcurrencyWords(n), " ")
  {
    JoinFour("-t", IntToString(n), "-l", IntToString(n), " ");
    if n > 1 then "-t " + IntToString(n) + " -l " + IntToString(n) else ""
  }

  /** The command of `startTDL`; `curPath` is the already resolved directory. */
  function DownloadCommand(url: string, curPath: string, isOversea: bool, proxyAddr: string, n: int): string {
    Join(["tdl", "dl", "-u", url, "-d", curPath, ConcurrencyPart(n), ProxyPart(isOversea, proxyAddr)], " ")
  }

  /** The command of `saveTDL`. */
  function ForwardCommand(url: string, isOversea: bool, proxyAddr: string): string {
    Join(["tdl", "forward", "--from", url, ProxyPart(isOversea, proxyAddr)], " ")
  }

  /** The decision of both exec callbacks: an error rejects first, then a
      non-empty stderr rejects, and only then does stdout resolve. */
  function ExecOutcome(tag: string, report: ExecReport): (r: Result<string, string>)
    ensures r.Ok? <==> report.error.None? && report.stderr == ""
    ensures r.Ok? ==> r.value == report.stdout
    ensures r.Err? ==> |r.error| > |tag| && r.error[..|tag|] == tag
  {
    if report.error.Some? then Err(tag + "执行出错: " + report.error.value)
    else if report.stderr != "" then Err(tag + "错误信息: " + report.stderr)
    else Ok(report.stdout)
  }

  /** `startTDL(url, curPath, isOversea, proxyAddr, n)`, with `exec` the process runner. */
  function StartTdl(url: string, curPath: string, isOversea: bool, proxyAddr: string, n: int,
                    exec: string -> ExecReport): (r: Launch)
    ensures r.command == DownloadCommand(url, curPath, isOversea, proxyAddr, n)
    ensures r.outcome == ExecOutcome(START_LABEL, exec(r.command))
  {
    var command := DownloadCommand(url, curPath, isOversea, proxyAddr, n);
    Launch(command, ExecOutcome(START_LABEL, exec(command)))
  }

  /** `saveTDL(url, isOversea, proxyAddr)`. */
  function SaveTdl(url: string, isOversea: bool, proxyAddr: string, exec: string -> ExecReport): (r: Launch)
    ensures r.command == ForwardCommand(url, isOversea, proxyAddr)
    ensures r.outcome == ExecOutcome(SAVE_LABEL, exec(r.command))
  {
    var command := ForwardCommand(url, isOversea, proxyAddr);
    Launch(command, ExecOutcome(SAVE_LABEL, exec(command)))
  }

  // ---------------------------------------------------------------------------
  // Properties

  /** The download command word by word; an omitted flag leaves one empty word. */
  function DownloadWords(url: string, curPath: string, isOversea: bool, proxyAddr: string, n: int): seq<string> {
    ["tdl", "dl", "-u", url, "-d", curPath] + ConcurrencyWords(n) + ProxyWords(isOversea, proxyAddr)
  }

  /** The forward command word by word. */
  function ForwardWords(url: string, isOversea: bool, proxyAddr: string): seq<string> {
    ["tdl", "forward", "--from", url] + ProxyWords(isOversea, proxyAddr)
  }

  lemma DownloadCommandJoin(url: string, curPath: string, isOversea: bool, proxyAddr: string, n: int)
    ensures DownloadCommand(url, curPath, isOversea, proxyAddr, n) == Join(DownloadWords(url, curPath, isOversea, proxyAddr, n), " ")
  {
    var head := ["tdl", "dl", "-u", url, "-d", curPath];
    var concurrency, proxy := ConcurrencyPart(n), ProxyPart(isOversea, proxyAddr);
    assert head + [concurrency] + [proxy] == ["tdl", "dl", "-u", url, "-d", curPath, concurrency, proxy];
    JoinAppend(head + [concurrency], [proxy], " ");
    JoinAppend(head, [concurrency], " ");
    JoinAppend(head + ConcurrencyWords(n), ProxyWords(isOversea, proxyAddr), " ");
    JoinAppend(head, ConcurrencyWords(n), " ");
  }

  lemma ForwardCommandJoin(url: string, isOversea: bool, proxyAddr: string)
    ensures ForwardCommand(url, isOversea, proxyAddr) == Join(ForwardWords(url, isOversea, proxyAddr), " ")
  {
    var head := ["tdl", "forward", "--from", url];
    assert head + [ProxyPart(isOversea, proxyAddr)] == ["tdl", "forward", "--from", url, ProxyPart(isOversea, proxyAddr)];
    JoinAppend(head, [ProxyPart(isOversea, proxyAddr)], " ");
    JoinAppend(head, ProxyWords(isOversea, proxyAddr), " ");
  }

  lemma DownloadWordsFree(url: string, curPath: string, isOversea: bool, proxyAddr: string, n: int)
    requires Free(url, ' ') && Free(curPath, ' ') && Free(proxyAddr, ' ')
    ensures AllFree(DownloadWords(url, curPath, isOversea, proxyAddr, n), ' ')
  {
    var head := ["tdl", "dl", "-u", url, "-d", curPath];
    assert AllFree(head, ' ');
    IntToStringFree(n, ' ');
    assert AllFree(ConcurrencyWords(n), ' ');
    assert AllFree(ProxyWords(isOversea, proxyAddr), ' ');
    AllFreeAppend(head, ConcurrencyWords(n), ' ');
    AllFreeAppend(head + ConcurrencyWords(n), ProxyWords(isOversea, proxyAddr), ' ');
  }

  /** Split on spaces, as a shell does, the download command is
      `tdl dl -u <url> -d <path>`, then the concurrency flags, then the proxy
      flag, in that order. */
  lemma DownloadCommandWords(url: string, curPath: string, isOversea: bool, proxyAddr: string, n: int)
    requires Free(url, ' ') && Free(curPath, ' ') && Free(proxyAddr, ' ')
    ensures SplitOn(DownloadCommand(url, curPath, isOversea, proxyAddr, n), ' ')
         == DownloadWords(url, curPath, isOversea, proxyAddr, n)
  {
    DownloadCommandJoin(url, curPath, isOversea, proxyAddr, n);
    DownloadWordsFree(url, curPath, isOversea, proxyAddr, n);
    SplitJoinFree(DownloadWords(url, curPath, isOversea, proxyAddr, n), ' ');
  }

  /** Split on spaces, the forward command is `tdl forward --from <url>`, then the proxy flag. */
  lemma ForwardCommandWords(url: string, isOversea: bool, proxyAddr: string)
    requires Free(url, ' ') && Free(proxyAddr, ' ')
    ensures SplitOn(ForwardCommand(url, isOversea, proxyAddr), ' ') == ForwardWords(url, isOversea, proxyAddr)
  {
    ForwardCommandJoin(url, isOversea, proxyAddr);
    var head := ["tdl", "forward", "--from", url];
    assert AllFree(head, ' ');
    assert AllFree(ProxyWords(isOversea, proxyAddr), ' ');
    AllFreeAppend(head, ProxyWords(isOversea, proxyAddr), ' ');
    SplitJoinFree(ForwardWords(url, isOversea, proxyAddr), ' ');
  }

  /** An exec error decides the outcome whatever the process printed. */
  lemma ErrorWinsOverOutput(tag: string, report: ExecReport, stdout: string, stderr: string)
    requires report.error.Some?
    ensures ExecOutcome(tag, report) == ExecOutcome(tag, ExecReport(report.error, stdout, stderr))
    ensures ExecOutcome(tag, report) == Err(tag + "执行出错: " + report.error.value)
  {
  }
}
