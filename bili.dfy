/**
 * The Bilibili decisions of apps/RCtools.js that do not touch the network:
 * which page of a multi-page video `bili` checks against the duration limit,
 * the title line `constructBiliInfo` builds from it, and the dynamic id
 * `biliDynamic` cuts out of a link.
 */
module Bili {
  import opened Wrappers
  import opened Text

  // ---------------------------------------------------------------------------
  // The `p` query parameter

  /** `url.split('?')[1]`, when there is one. */
  function QueryOf(url: string): Option<string> {
    var parts := SplitOn(url, '?');
    if |parts| > 1 then Some(parts[1]) else None
  }

  /** The key of one `&`-separated query piece: all of it before the first `=`. */
  function KeyOf(piece: string): string {
    match IndexOf(piece, "=", 0)
    case Some(i) => piece[..i]
    case None => piece
  }

  /** The value of one query piece: all of it after the first `=`, or `''`. */
  function ValueOf(piece: string): string {
    match IndexOf(piece, "=", 0)
    case Some(i) => piece[i + 1..]
    case None => ""
  }

  /** The values given for `key`, in order of appearance. */
  function ValuesFor(pieces: seq<string>, key: string): (vs: seq<string>)
    ensures |vs| <= |pieces|
  {
    if pieces == [] then []
    else PieceValues(pieces[0], key) + ValuesFor(pieces[1..], key)
  }

  /** The value one piece gives for `key`: none, or its value. */
  function PieceValues(piece: string, key: string): seq<string> {
    if KeyOf(piece) == key then [ValueOf(piece)] else []
  }

  /** There are values exactly when some piece has the key, and each value is
      the value of such a piece. */
  lemma {:induction false} ValuesForMeaning(pieces: seq<string>, key: string)
    ensures ValuesFor(pieces, key) == [] <==> forall i :: 0 <= i < |pieces| ==> KeyOf(pieces[i]) != key
    ensures forall v :: v in ValuesFor(pieces, key) ==>
      exists p :: p in pieces && KeyOf(p) == key && ValueOf(p) == v
  {
    if pieces != [] {
      var rest := pieces[1..];
      ValuesForUnfold(pieces, key, pieces[0], rest);
      ValuesForMeaning(rest, key);
      assert forall i :: 1 <= i < |pieces| ==> pieces[i] == rest[i - 1];
      forall v | v in ValuesFor(pieces, key)
        ensures exists p :: p in pieces && KeyOf(p) == key && ValueOf(p) == v
      {
        if v in PieceValues(pieces[0], key) {
          assert pieces[0] in pieces;
        } else {
          var p :| p in rest && KeyOf(p) == key && ValueOf(p) == v;
          assert p in pieces;
        }
      }
    }
  }

  /** Values keep the order of their pieces: those of a first run of pieces
      come before those of the rest. */
  lemma {:induction false} ValuesForAppend(a: seq<string>, b: seq<string>, key: string)
    ensures ValuesFor(a + b, key) == ValuesFor(a, key) + ValuesFor(b, key)
  {
    if a == [] {
      assert a + b == b;
    } else {
      ValuesForUnfold(a + b, key, a[0], a[1..] + b);
      ValuesForAppend(a[1..], b, key);
      ValuesForUnfold(a, key, a[0], a[1..]);
      RegroupThree(PieceValues(a[0], key), ValuesFor(a[1..], key), ValuesFor(b, key));
    }
  }

  lemma ValuesForUnfold(pieces: seq<string>, key: string, first: string, rest: seq<string>)
    requires pieces != [] && pieces[0] == first && pieces[1..] == rest
    ensures ValuesFor(pieces, key) == PieceValues(first, key) + ValuesFor(rest, key)
  {
  }

  /** `queryParams.p ? parseInt(queryParams.p, 10) : null`, with `None` for both
      `null` and `NaN`. A single value is parsed as it is, a repeated key
      gives an array, which `parseInt` reads through its comma-joined text. */
  function PageParam(url: string): Option<int> {
    var values := match QueryOf(url)
      case Some(q) => ValuesFor(SplitOn(q, '&'), "p")
      case None => [];
    if |values| == 0 || (|values| == 1 && values[0] == "") then None
    else ParseInt(Join(values, ","))
  }

  /** The query of `base?q`, when `base` has no `?` and `q` none either. */
  lemma QueryOfLink(base: string, q: string)
    requires Free(base, '?') && Free(q, '?')
    ensures QueryOf(base + ['?'] + q) == Some(q)
  {
    SplitOnAround(base, q, '?');
    SplitOnFree(base, '?');
    SplitOnFree(q, '?');
  }

  /** The piece `p=<n>` has key `p` and value `n`. */
  lemma PagePiece(n: string)
    ensures KeyOf("p=" + n) == "p" && ValueOf("p=" + n) == n
  {
    var q := "p=" + n;
    assert q[1..2] == "=";
    IndexOfAt(q, "=", 1);
  }

  /** `p=` followed by a rendered number contains neither `?` nor `&`. */
  lemma PagePieceFree(k: int)
    ensures Free("p=" + IntToString(k), '?') && Free("p=" + IntToString(k), '&')
  {
    var n := IntToString(k);
    var q := "p=" + n;
    IntToStringFree(k, '?');
    IntToStringFree(k, '&');
    forall j | 2 <= j < |q| ensures q[j] != '?' && q[j] != '&' {
      assert q[j] == n[j - 2];
    }
  }

  /** A link `base?p=k` names page `k`. */
  lemma PageParamReadsPageNumber(base: string, k: int)
    requires Free(base, '?')
    ensures PageParam(base + "?p=" + IntToString(k)) == Some(k)
  {
    var n := IntToString(k);
    var q := "p=" + n;
    var url := base + "?p=" + n;
    assert url == base + ['?'] + q;
    PagePieceFree(k);
    QueryOfLink(base, q);
    SplitOnFree(q, '&');
    PagePiece(n);
    ValuesForSingle(q, "p");
    assert PieceValues(q, "p") == [n];
    ParseIntOfIntToString(k, []);
    assert n + [] == n;
    PageParamOfValues(url, q, [n]);
  }

  lemma ValuesForSingle(piece: string, key: string)
    ensures ValuesFor([piece], key) == PieceValues(piece, key)
  {
    ValuesForUnfold([piece], key, piece, []);
  }

  lemma PageParamOfValues(url: string, q: string, values: seq<string>)
    requires QueryOf(url) == Some(q) && ValuesFor(SplitOn(q, '&'), "p") == values
    ensures PageParam(url)
         == if |values| == 0 || (|values| == 1 && values[0] == "") then None else ParseInt(Join(values, ","))
  {
  }

  /** JavaScript truthiness of the parsed parameter: `null`, `NaN` and `0` are falsy. */
  predicate Truthy(p: Option<int>) {
    p.Some? && p.value != 0
  }

  // ---------------------------------------------------------------------------
  // Page selection

  /** One entry of `videoInfo.pages`. */
  datatype Page = Page(duration: int, part: string)

  /** What `bili` goes on with: the duration checked against the limit, the
      part title (`null` is `None`), and the page number handed to
      `constructBiliInfo`. */
  datatype Selection = Selection(durationForCheck: int, partTitle: Option<string>, titlePage: Option<int>)

  /** `pParam && pages.length >= pParam && pParam > 0`. */
  predicate ValidPage(pages: seq<Page>, p: Option<int>) {
    Truthy(p) && |pages| >= p.value && p.value > 0
  }

  /** The page `bili` checks: with more than one page the one `p` names when
      it is in range and the first otherwise; with at most one page the
      total duration and no part title. The page number passed on is `p`
      when truthy, else 1 for a multi-page video. */
  function SelectPage(duration: int, pages: seq<Page>, p: Option<int>): (s: Selection)
    ensures |pages| > 1 && ValidPage(pages, p) ==>
      s.durationForCheck == pages[p.value - 1].duration && s.partTitle == Some(pages[p.value - 1].part)
    ensures |pages| > 1 && !ValidPage(pages, p) ==>
      s.durationForCheck == pages[0].duration && s.partTitle == Some(pages[0].part)
    ensures |pages| <= 1 ==> s.durationForCheck == duration && s.partTitle.None?
    ensures s.titlePage.Some? <==> Truthy(p) || |pages| > 1
    ensures Truthy(p) ==> s.titlePage == p
    ensures !Truthy(p) && |pages| > 1 ==> s.titlePage == Some(1)
  {
    var titlePage := if Truthy(p) then p else if |pages| > 1 then Some(1) else None;
    if |pages| > 1 then
      var target := if ValidPage(pages, p) then pages[p.value - 1] else pages[0];
      Selection(target.duration, Some(target.part), titlePage)
    else
      Selection(duration, None, titlePage)
  }

  /** `durationForCheck > this.biliDuration`. */
  predicate IsLimitDuration(s: Selection, biliDuration: int) {
    s.durationForCheck > biliDuration
  }

  /** A multi-page video is limited by the duration of the page the title
      names exactly when that number is in range or no number was given. */
  lemma SelectedPageMatchesTitle(duration: int, pages: seq<Page>, p: Option<int>, biliDuration: int)
    requires |pages| > 1
    ensures var s := SelectPage(duration, pages, p);
      && s.titlePage.Some?
      && (ValidPage(pages, p) || !Truthy(p) ==>
            0 < s.titlePage.value <= |pages| &&
            (IsLimitDuration(s, biliDuration) <==> pages[s.titlePage.value - 1].duration > biliDuration))
  {
  }

  /** An out-of-range page number is still printed, although the first page
      is the one checked: `?p=9` on a three-page video. */
  lemma OutOfRangePageKeepsNumber(a: Page, b: Page, c: Page)
    ensures SelectPage(0, [a, b, c], Some(9)) == Selection(a.duration, Some(a.part), Some(9))
  {
  }

  // ---------------------------------------------------------------------------
  // The title line

  /** The title without a part suffix. */
  function BaseTitle(identifyPrefix: string, displayTitle: string): string {
    identifyPrefix + "识别：哔哩哔哩，" + displayTitle
  }

  /** `${pParam}` for the number handed to `constructBiliInfo`. */
  function PageText(page: Option<int>): string {
    match page
    case Some(k) => IntToString(k)
    case None => "null"
  }

  /** `partTitle && partTitle !== displayTitle`. */
  predicate HasDistinctPart(s: Selection, displayTitle: string) {
    s.partTitle.Some? && s.partTitle.value != "" && s.partTitle.value != displayTitle
  }

  /** `finalTitle` of `constructBiliInfo`: the base title, and `|{p}P: {part}`
      when there is a part title that differs from the main title. */
  function FinalTitle(identifyPrefix: string, displayTitle: string, s: Selection): (t: string)
    ensures |t| >= |BaseTitle(identifyPrefix, displayTitle)|
    ensures t[..|BaseTitle(identifyPrefix, displayTitle)|] == BaseTitle(identifyPrefix, displayTitle)
    ensures t == BaseTitle(identifyPrefix, displayTitle) <==> !HasDistinctPart(s, displayTitle)
    ensures HasDistinctPart(s, displayTitle) ==>
      t[|BaseTitle(identifyPrefix, displayTitle)|..] == "|" + PageText(s.titlePage) + "P: " + s.partTitle.value
  {
    var base := BaseTitle(identifyPrefix, displayTitle);
    if HasDistinctPart(s, displayTitle) then base + "|" + PageText(s.titlePage) + "P: " + s.partTitle.value
    else base
  }

  /** A single-page video never gets a part suffix. */
  lemma SinglePageTitle(identifyPrefix: string, displayTitle: string, duration: int, pages: seq<Page>, p: Option<int>)
    requires |pages| <= 1
    ensures FinalTitle(identifyPrefix, displayTitle, SelectPage(duration, pages, p)) == BaseTitle(identifyPrefix, displayTitle)
  {
  }

  /** On a multi-page video linked as `?p=k` with `k` in range, the suffix
      names page `k` and its part, unless that part is empty or the main title. */
  lemma LinkedPageTitle(identifyPrefix: string, displayTitle: string, duration: int, pages: seq<Page>,
                        base: string, k: int)
    requires |pages| > 1 && 0 < k <= |pages| && Free(base, '?')
    requires pages[k - 1].part != "" && pages[k - 1].part != displayTitle
    ensures FinalTitle(identifyPrefix, displayTitle, SelectPage(duration, pages, PageParam(base + "?p=" + IntToString(k))))
      == BaseTitle(identifyPrefix, displayTitle) + "|" + IntToString(k) + "P: " + pages[k - 1].part
  {
    PageParamReadsPageNumber(base, k);
  }

  // ---------------------------------------------------------------------------
  // The dynamic id

  /** `url.substring(0, url.indexOf('?'))` when the url holds a `?`. */
  function WithoutQuery(url: string): (r: string)
    ensures |r| <= |url| && r == url[..|r|] && Free(r, '?')
    ensures |r| < |url| ==> url[|r|] == '?'
  {
    match IndexOf(url, "?", 0)
    case Some(i) =>
      assert forall j :: 0 <= j < i ==> url[j] != '?' by {
        forall j | 0 <= j < i ensures url[j] != '?' {
          assert !OccursAt(url, "?", j);
          assert url[j..j + 1] == [url[j]];
        }
      }
      url[..i]
    case None =>
      assert forall j :: 0 <= j < |url| ==> url[j] != '?' by {
        forall j | 0 <= j < |url| ensures url[j] != '?' {
          assert !OccursAt(url, "?", j);
          assert url[j..j + 1] == [url[j]];
        }
      }
      url
  }

  /** The longest suffix of `s` without `/`. */
  function AfterLastSlash(s: string): (r: string)
    ensures |r| <= |s| && r == s[|s| - |r|..] && Free(r, '/')
    ensures |r| < |s| ==> s[|s| - |r| - 1] == '/'
  {
    if s == [] || s[|s| - 1] == '/' then []
    else AfterLastSlash(s[..|s| - 1]) + [s[|s| - 1]]
  }

  /** `/[^/]+(?!.*\/)/.exec(url)[0]` after the query is cut: the text after
      the last `/`. When nothing follows the last `/` the match is `null`
      and reading `[0]` throws. */
  function DynamicId(url: string): (r: Result<string, string>)
    ensures r.Ok? ==> r.value != [] && Free(r.value, '/') && Free(r.value, '?')
    ensures r.Ok? ==> var w := WithoutQuery(url); |r.value| <= |w| && r.value == w[|w| - |r.value|..]
    ensures r.Err? <==> var w := WithoutQuery(url); w == [] || w[|w| - 1] == '/'
  {
    DynamicMatch(WithoutQuery(url))
  }

  /** The regex match on a url whose query is already cut. */
  function DynamicMatch(w: string): (r: Result<string, string>)
    ensures r.Ok? ==> r.value != [] && Free(r.value, '/') && (Free(w, '?') ==> Free(r.value, '?'))
    ensures r.Ok? ==> |r.value| <= |w| && r.value == w[|w| - |r.value|..]
    ensures r.Err? <==> w == [] || w[|w| - 1] == '/'
  {
    var id := AfterLastSlash(w);
    AfterLastSlashEmpty(w);
    if id == [] then Err("TypeError: Cannot read properties of null (reading '0')")
    else
      (if Free(w, '?') then SuffixFree(w, id, '?'); Ok(id) else Ok(id))
  }

  /** Nothing follows the last `/` exactly when the string is empty or ends in one. */
  lemma AfterLastSlashEmpty(s: string)
    ensures AfterLastSlash(s) == [] <==> s == [] || s[|s| - 1] == '/'
  {
  }

  /** A slash-free lemma for the characters of a segment appended after a slash. */
  lemma {:induction false} AfterLastSlashOf(a: string, b: string)
    requires Free(b, '/')
    ensures AfterLastSlash(a + "/" + b) == b
  {
    var s := a + "/" + b;
    if b != [] {
      var init := b[..|b| - 1];
      assert s[..|s| - 1] == a + "/" + init;
      assert s[|s| - 1] == b[|b| - 1];
      AfterLastSlashOf(a, init);
      assert init + [b[|b| - 1]] == b;
    } else {
      assert s[|s| - 1] == '/';
    }
  }

  /** A link `…/id?query` yields `id`. */
  lemma DynamicIdOfLink(a: string, id: string, query: string)
    requires Free(a, '?') && id != [] && Free(id, '/') && Free(id, '?')
    ensures DynamicId(a + "/" + id + "?" + query) == Ok(id)
    ensures DynamicId(a + "/" + id) == Ok(id)
  {
    var w := a + "/" + id;
    assert Free(w, '?');
    assert (w + "?" + query)[|w|..|w| + 1] == "?";
    assert (w + "?" + query)[..|w|] == w;
    IndexOfAt(w + "?" + query, "?", |w|);
    AfterLastSlashOf(a, id);
    forall j: nat ensures !OccursAt(w, "?", j) {
      OccurrenceStarts(w, "?", j);
    }
    assert WithoutQuery(w) == w;
  }
}
