/** The frozen lookup tables and constants of constants/constant.js. */
module Constants {
  import opened Wrappers
  import opened Text

  const TEN_THOUSAND: int := 10000

  /** The separator appended to a summary, with one `{}` placeholder for its heading. */
  const DIVIDING_LINE: string := "\n━━━{}━━━"

  /** The redis key under which the overseas flag is cached. */
  const REDIS_YUNZAI_ISOVERSEA: string := "Yz:rconsole:tools:oversea"

  /** Milliseconds between two existence checks of an accelerator download. */
  const DOWNLOAD_WAIT_DETECT_FILE_TIME: nat := 3000

  const BILI_CDN_TEMPLATE: string := "upos-sz-mirror{}.bilivideo.com"

  datatype CdnOption = CdnOption(name: string, value: int, sign: string)

  datatype DownloadMethodOption = DownloadMethodOption(name: string, value: int)

  datatype ResolutionOption = ResolutionOption(name: string, value: int, qn: int)

  /** `BILI_CDN_TEMPLATE.replace('{}', code)`. */
  function CdnHost(code: string): (host: string)
    ensures host == "upos-sz-mirror" + code + ".bilivideo.com"
  {
    CdnHostSplit(code);
    ReplaceFirst(BILI_CDN_TEMPLATE, "{}", code)
  }

  lemma CdnHostSplit(code: string)
    ensures ReplaceFirst(BILI_CDN_TEMPLATE, "{}", code) == "upos-sz-mirror" + code + ".bilivideo.com"
  {
    assert BILI_CDN_TEMPLATE[14..16] == "{}";
    assert BILI_CDN_TEMPLATE[..14] == "upos-sz-mirror";
    assert BILI_CDN_TEMPLATE[16..] == ".bilivideo.com";
    IndexOfAt(BILI_CDN_TEMPLATE, "{}", 14);
  }

  const BILI_CDN_SELECT_LIST: seq<CdnOption> := [
    CdnOption("不使用", 0, ""),
    CdnOption("腾讯CDN【推荐】", 1, CdnHost("cos")),
    CdnOption("百度CDN", 2, CdnHost("bd")),
    CdnOption("华为CDN", 3, CdnHost("hw")),
    CdnOption("阿卡迈（海外）", 4, CdnHost("akamai")),
    CdnOption("HK-CDN", 5, CdnHost("aliov"))
  ]

  const BILI_DOWNLOAD_METHOD: seq<DownloadMethodOption> := [
    DownloadMethodOption("稳定（原生）", 0),
    DownloadMethodOption("性能（Aria2）", 1),
    DownloadMethodOption("轻量（axel/wget）", 2)
  ]

  const BILI_RESOLUTION_LIST: seq<ResolutionOption> := [
    ResolutionOption("8K 超高清", 0, 127),
    ResolutionOption("4K 超清", 1, 120),
    ResolutionOption("1080P 高码率", 2, 112),
    ResolutionOption("1080P 高清", 3, 80),
    ResolutionOption("720P 高清", 4, 64),
    ResolutionOption("480P 清晰", 5, 32),
    ResolutionOption("360P 流畅", 6, 16)
  ]

  // ---------------------------------------------------------------------------
  // `list.find(item => item.value === v)`

  function FindByValue<T>(list: seq<T>, key: T -> int, v: int): (r: Option<T>)
    ensures r.Some? ==> r.value in list && key(r.value) == v
    ensures r.None? <==> forall i :: 0 <= i < |list| ==> key(list[i]) != v
    ensures r.Some? ==>
      exists i :: 0 <= i < |list| && list[i] == r.value && (forall j :: 0 <= j < i ==> key(list[j]) != v)
  {
    if list == [] then None
    else if key(list[0]) == v then Some(list[0])
    else
      var r := FindByValue(list[1..], key, v);
      if r.Some? then
        ghost var i :| 0 <= i < |list[1..]| && list[1..][i] == r.value &&
          (forall j :: 0 <= j < i ==> key(list[1..][j]) != v);
        assert list[i + 1] == r.value;
        r
      else r
  }

  /** In a table whose values count up from `offset`, `find` is indexing. */
  lemma {:induction false} FindByValueIndexed<T>(list: seq<T>, key: T -> int, v: int, offset: int)
    requires forall i :: 0 <= i < |list| ==> key(list[i]) == offset + i
    ensures FindByValue(list, key, v) == if offset <= v < offset + |list| then Some(list[v - offset]) else None
  {
    if list != [] && key(list[0]) != v {
      FindByValueIndexed(list[1..], key, v, offset + 1);
    }
  }

  /** `item.value`, as the callback of each table's `find` reads it. */
  function CdnValue(entry: CdnOption): int {
    entry.value
  }

  function ResolutionValue(entry: ResolutionOption): int {
    entry.value
  }

  /** The error raised when a property of `undefined` is read. */
  datatype LookupError = UndefinedEntry

  /** The qn sent for a configured resolution:
      `BILI_RESOLUTION_LIST.find(...).qn || 32`; an unknown value has no
      entry and reading `.qn` of `undefined` throws. */
  function ResolutionQn(resolution: int): (r: Result<int, LookupError>)
    ensures r.Ok? <==> 0 <= resolution < |BILI_RESOLUTION_LIST|
    ensures r.Ok? ==> r.value == BILI_RESOLUTION_LIST[resolution].qn
  {
    ResolutionTableShape();
    FindByValueIndexed(BILI_RESOLUTION_LIST, ResolutionValue, resolution, 0);
    match FindByValue(BILI_RESOLUTION_LIST, ResolutionValue, resolution)
    case None => Err(UndefinedEntry)
    case Some(entry) => Ok(if entry.qn == 0 then 32 else entry.qn)
  }

  lemma CdnValues()
    ensures forall i :: 0 <= i < |BILI_CDN_SELECT_LIST| ==> BILI_CDN_SELECT_LIST[i].value == i
  {
  }

  /** The CDN host for a configured CDN: `BILI_CDN_SELECT_LIST.find(...)?.sign`. */
  function CdnSign(cdn: int): (r: Option<string>)
    ensures r.Some? <==> 0 <= cdn < |BILI_CDN_SELECT_LIST|
    ensures r.Some? ==> 0 <= cdn < |BILI_CDN_SELECT_LIST| && r.value == BILI_CDN_SELECT_LIST[cdn].sign
  {
    CdnValues();
    FindByValueIndexed(BILI_CDN_SELECT_LIST, CdnValue, cdn, 0);
    match FindByValue(BILI_CDN_SELECT_LIST, CdnValue, cdn)
    case None => None
    case Some(entry) => Some(entry.sign)
  }

  // ---------------------------------------------------------------------------
  // Facts about the tables

  /** Resolution values are 0..6 in order, and qn falls strictly from 127 to 16. */
  lemma ResolutionTableShape()
    ensures forall i :: 0 <= i < |BILI_RESOLUTION_LIST| ==> BILI_RESOLUTION_LIST[i].value == i
    ensures forall i, j :: 0 <= i < j < |BILI_RESOLUTION_LIST| ==>
      BILI_RESOLUTION_LIST[i].qn > BILI_RESOLUTION_LIST[j].qn
    ensures BILI_RESOLUTION_LIST[0].qn == 127 && BILI_RESOLUTION_LIST[6].qn == 16
    ensures forall i :: 0 <= i < |BILI_RESOLUTION_LIST| ==> BILI_RESOLUTION_LIST[i].qn > 0
  {
  }

  /** Every qn is non-zero, so the `|| 32` fallback never applies: a known
      resolution yields its own qn, value 5 yields 32, an unknown one fails. */
  lemma ResolutionFallbackUnused(resolution: int)
    ensures ResolutionQn(resolution).Ok? ==>
      ResolutionQn(resolution).value == FindByValue(BILI_RESOLUTION_LIST, ResolutionValue, resolution).value.qn
    ensures ResolutionQn(5) == Ok(32)
    ensures resolution < 0 || resolution > 6 ==> ResolutionQn(resolution) == Err(UndefinedEntry)
  {
    ResolutionTableShape();
  }

  /** The codes the CDN template is filled with, for CDNs 1..5. */
  const CDN_CODES: seq<string> := ["cos", "bd", "hw", "akamai", "aliov"]

  /** The entries 1..5, one lemma each: each fills the template once. */
  lemma CdnEntry1()
    ensures CdnSign(1) == Some(CdnHost(CDN_CODES[0]))
  {
  }

  lemma CdnEntry2()
    ensures CdnSign(2) == Some(CdnHost(CDN_CODES[1]))
  {
  }

  lemma CdnEntry3()
    ensures CdnSign(3) == Some(CdnHost(CDN_CODES[2]))
  {
  }

  lemma CdnEntry4()
    ensures CdnSign(4) == Some(CdnHost(CDN_CODES[3]))
  {
  }

  lemma CdnEntry5()
    ensures CdnSign(5) == Some(CdnHost(CDN_CODES[4]))
  {
  }

  /** CDN 0 has no host; CDNs 1..5 fill the template with cos, bd, hw, akamai,
      aliov; no other value has an entry. */
  lemma CdnTableShape()
    ensures CdnSign(0) == Some("")
    ensures CdnSign(1) == Some(CdnHost("cos"))
    ensures CdnSign(2) == Some(CdnHost("bd"))
    ensures CdnSign(3) == Some(CdnHost("hw"))
    ensures CdnSign(4) == Some(CdnHost("akamai"))
    ensures CdnSign(5) == Some(CdnHost("aliov"))
    ensures forall i :: i < 0 || i > |CDN_CODES| ==> CdnSign(i).None?
  {
    CdnEntry1();
    CdnEntry2();
    CdnEntry3();
    CdnEntry4();
    CdnEntry5();
  }

  /** The download-method values 0, 1 and 2 are the native, Aria2 and axel strategies. */
  lemma DownloadMethodTableShape()
    ensures |BILI_DOWNLOAD_METHOD| == 3
    ensures forall i :: 0 <= i < |BILI_DOWNLOAD_METHOD| ==> BILI_DOWNLOAD_METHOD[i].value == i
    ensures Contains(BILI_DOWNLOAD_METHOD[1].name, "Aria2")
    ensures Contains(BILI_DOWNLOAD_METHOD[2].name, "axel")
  {
    assert OccursAt(BILI_DOWNLOAD_METHOD[1].name, "Aria2", 3);
    assert OccursAt(BILI_DOWNLOAD_METHOD[2].name, "axel", 3);
  }

  /** `DIVIDING_LINE` holds exactly one `{}` placeholder. */
  lemma DividingLineHasOnePlaceholder()
    ensures forall j: nat :: OccursAt(DIVIDING_LINE, "{}", j) <==> j == 4
  {
    assert DIVIDING_LINE[4..6] == "{}";
    assert DIVIDING_LINE[..4] == "\n━━━";
    assert DIVIDING_LINE[5..] == "}━━━";
    OnlyOccurrence(DIVIDING_LINE, "{}", 4);
  }
}
