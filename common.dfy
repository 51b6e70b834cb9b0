/** The pure helpers of utils/common.js. */
module Common {
  import opened Wrappers
  import opened Text
  import opened Constants

  // ---------------------------------------------------------------------------
  // Statistics of a video

  /**
   * `dataProcessing(n)`: a count of at least ten thousand is shown in units of
   * 万 (ten thousand); a smaller one is shown as it is. `tenThousands(n)` is
   * the one-decimal rendering `(n / 10000).toFixed(1)`, which the model keeps
   * abstract.
   */
  function DataProcessing(n: int, tenThousands: int -> string): (r: string)
    ensures n < TEN_THOUSAND ==> r == IntToString(n)
    ensures n >= TEN_THOUSAND ==> r == tenThousands(n) + "万"
  {
    if n >= TEN_THOUSAND then tenThousands(n) + "万" else IntToString(n)
  }

  /** One `key：value` entry of `formatBiliInfo` (the colon is full-width). */
  function BiliInfoEntry(key: string, n: int, tenThousands: int -> string): string {
    key + "：" + DataProcessing(n, tenThousands)
  }

  /** `formatBiliInfo(data)`: one entry per key in key order, joined by ` | `. */
  function FormatBiliInfo(data: seq<(string, int)>, tenThousands: int -> string): string {
    Join(BiliInfoEntries(data, tenThousands), " | ")
  }

  /** The entries of `formatBiliInfo`, one per key. */
  function BiliInfoEntries(data: seq<(string, int)>, tenThousands: int -> string): seq<string> {
    seq(|data|, i requires 0 <= i < |data| => BiliInfoEntry(data[i].0, data[i].1, tenThousands))
  }

  /** The entries of a concatenation are the two lists of entries. */
  lemma BiliInfoEntriesAppend(a: seq<(string, int)>, b: seq<(string, int)>, tenThousands: int -> string)
    ensures BiliInfoEntries(a + b, tenThousands) == BiliInfoEntries(a, tenThousands) + BiliInfoEntries(b, tenThousands)
  {
    var ea, eb, eab := BiliInfoEntries(a, tenThousands), BiliInfoEntries(b, tenThousands), BiliInfoEntries(a + b, tenThousands);
    forall i | 0 <= i < |eab|
      ensures eab[i] == (ea + eb)[i]
    {
      if i < |a| {
        assert (a + b)[i] == a[i];
      } else {
        assert (a + b)[i] == b[i - |a|];
      }
    }
  }

  /** A single statistic is rendered as one entry with no separator. */
  lemma FormatBiliInfoSingle(key: string, n: int, tenThousands: int -> string)
    ensures FormatBiliInfo([(key, n)], tenThousands) == key + "：" + DataProcessing(n, tenThousands)
  {
    assert BiliInfoEntries([(key, n)], tenThousands) == [BiliInfoEntry(key, n, tenThousands)];
  }

  /** The rendering of a concatenation is the two renderings joined by ` | `. */
  lemma FormatBiliInfoAppend(a: seq<(string, int)>, b: seq<(string, int)>, tenThousands: int -> string)
    requires |a| > 0 && |b| > 0
    ensures FormatBiliInfo(a + b, tenThousands)
         == FormatBiliInfo(a, tenThousands) + " | " + FormatBiliInfo(b, tenThousands)
  {
    BiliInfoEntriesAppend(a, b, tenThousands);
    JoinAppend(BiliInfoEntries(a, tenThousands), BiliInfoEntries(b, tenThousands), " | ");
  }

  /** Counts below ten thousand pass through as their decimal rendering,
      whatever the ten-thousands rendering is. */
  lemma FormatBiliInfoSmallCounts(data: seq<(string, int)>, f: int -> string, g: int -> string)
    requires forall i :: 0 <= i < |data| ==> data[i].1 < TEN_THOUSAND
    ensures FormatBiliInfo(data, f) == FormatBiliInfo(data, g)
    ensures FormatBiliInfo(data, f)
         == Join(seq(|data|, i requires 0 <= i < |data| => data[i].0 + "：" + IntToString(data[i].1)), " | ")
  {
    var ef := BiliInfoEntries(data, f);
    var eg := BiliInfoEntries(data, g);
    var plain := seq(|data|, i requires 0 <= i < |data| => data[i].0 + "：" + IntToString(data[i].1));
    assert ef == plain;
    assert eg == plain;
  }

  // ---------------------------------------------------------------------------
  // secondsToTime

  /** `pad(num, 2)`: the decimal rendering, zero-padded to at least two characters. */
  function Pad2(n: nat): (r: string)
    ensures |r| >= 2 && AllDigits(r) && DigitsValue(r) == n
    ensures n < 100 ==> |r| == 2
  {
    var d := NatToString(n);
    if n < 100 then NatToStringBelowHundred(n); PadTwoDigits(d) else d
  }

  /** Padding a one- or two-digit rendering to width two keeps its value. */
  function PadTwoDigits(d: string): (r: string)
    requires 1 <= |d| <= 2 && AllDigits(d)
    ensures |r| == 2 && AllDigits(r) && DigitsValue(r) == DigitsValue(d)
  {
    if |d| == 2 then d
    else
      DigitsValueLeadingZeros(1, d);
      assert Repeat('0', 1) + d == PadStart(d, 2, '0');
      PadStart(d, 2, '0')
  }

  /** Splitting a duration into hours, minutes (below 60) and seconds (below 60). */
  function ClockFields(seconds: nat): (r: (nat, nat, nat))
    ensures r.0 * 3600 + r.1 * 60 + r.2 == seconds
    ensures r.1 < 60 && r.2 < 60
  {
    (seconds / 3600, (seconds % 3600) / 60, seconds % 60)
  }

  /** `secondsToTime(seconds)`: `HH:MM:SS`. */
  function SecondsToTime(seconds: nat): string {
    var fields := ClockFields(seconds);
    Pad2(fields.0) + ":" + Pad2(fields.1) + ":" + Pad2(fields.2)
  }

  /** Reading an `H:M:S` clock back as a number of seconds. */
  function ClockSeconds(t: string): Option<nat> {
    ClockOfFields(SplitOn(t, ':'))
  }

  /** Three digit fields as hours, minutes and seconds. */
  function ClockOfFields(parts: seq<string>): Option<nat> {
    if |parts| == 3 && AllDigits(parts[0]) && AllDigits(parts[1]) && AllDigits(parts[2]) then
      Some(DigitsValue(parts[0]) * 3600 + DigitsValue(parts[1]) * 60 + DigitsValue(parts[2]))
    else None
  }

  /** `secondsToTime` loses nothing: reading its clock back gives the input,
      and the minutes and seconds fields are exactly two digits. */
  lemma SecondsToTimeRoundTrip(seconds: nat)
    ensures ClockSeconds(SecondsToTime(seconds)) == Some(seconds)
    ensures var parts := SplitOn(SecondsToTime(seconds), ':');
      |parts| == 3 && |parts[0]| >= 2 && |parts[1]| == 2 && |parts[2]| == 2
    ensures seconds < 360000 ==> |SecondsToTime(seconds)| == 8
  {
    var fields := ClockFields(seconds);
    var h, m, s := Pad2(fields.0), Pad2(fields.1), Pad2(fields.2);
    assert SecondsToTime(seconds) == h + ":" + m + ":" + s;
    ClockOfDigits(SecondsToTime(seconds), h, m, s, seconds);
  }

  /** Three digit fields joined by colons read back field by field. */
  lemma ClockOfDigits(t: string, h: string, m: string, s: string, n: nat)
    requires AllDigits(h) && AllDigits(m) && AllDigits(s) && t == h + ":" + m + ":" + s
    requires DigitsValue(h) * 3600 + DigitsValue(m) * 60 + DigitsValue(s) == n
    ensures SplitOn(t, ':') == [h, m, s]
    ensures ClockSeconds(t) == Some(n)
  {
    ClockSplits(h, m, s);
    assert ClockSeconds(t) == ClockOfFields([h, m, s]);
    ClockOfThreeFields(h, m, s);
  }

  /** Colons between digit fields are the only separators. */
  lemma ClockSplits(h: string, m: string, s: string)
    requires AllDigits(h) && AllDigits(m) && AllDigits(s)
    ensures SplitOn(h + ":" + m + ":" + s, ':') == [h, m, s]
  {
    DigitsAreFree(h, ':');
    DigitsAreFree(m, ':');
    DigitsAreFree(s, ':');
    SplitOnThree(h, m, s, ':');
    ColonLayout(h, m, s);
  }

  /** Three digit fields weigh 3600, 60 and 1. */
  lemma ClockOfThreeFields(h: string, m: string, s: string)
    requires AllDigits(h) && AllDigits(m) && AllDigits(s)
    ensures ClockOfFields([h, m, s]) == Some(DigitsValue(h) * 3600 + DigitsValue(m) * 60 + DigitsValue(s))
  {
    var parts := [h, m, s];
    assert |parts| == 3 && parts[0] == h && parts[1] == m && parts[2] == s;
  }

  /** The colons of a clock, as characters. */
  lemma ColonLayout(h: string, m: string, s: string)
    ensures h + ":" + m + ":" + s == h + [':'] + m + [':'] + s
  {
  }

  /** A digit string contains no non-digit character. */
  lemma DigitsAreFree(d: string, c: char)
    requires AllDigits(d) && !IsDigit(c)
    ensures Free(d, c)
  {
  }

  // ---------------------------------------------------------------------------
  // truncateString

  const DEFAULT_TRUNCATE_LENGTH: int := 50

  /**
   * `truncateString(s, maxLength)`: `maxLength` 0 and -1 mean "no limit";
   * otherwise a longer string is cut to `maxLength` characters plus `...`
   * (`substring` treats a negative length as 0).
   */
  function TruncateString(s: string, maxLength: int): (r: string)
    ensures maxLength == 0 || maxLength == -1 || |s| <= maxLength ==> r == s
    ensures maxLength > 0 && |s| > maxLength ==>
      r == s[..maxLength] + "..." && |r| == maxLength + 3
    ensures maxLength < -1 ==> r == "..."
  {
    if maxLength == 0 || maxLength == -1 || |s| <= maxLength then s
    else s[..if maxLength < 0 then 0 else maxLength] + "..."
  }

  // ---------------------------------------------------------------------------
  // retryFetch

  datatype Response = Response(ok: bool, status: int)

  /** What one `fetch` call did: answered, or threw with a message. */
  datatype Attempt = Answered(response: Response) | Threw(message: string)

  predicate Succeeded(a: Attempt) {
    a.Answered? && a.response.ok
  }

  /** The error an unsuccessful attempt raises inside the `try`. */
  function AttemptError(a: Attempt): string
    requires !Succeeded(a)
  {
    match a
    case Answered(response) => "请求失败，状态码: " + IntToString(response.status)
    case Threw(message) => message
  }

  function AttemptBudget(retries: int): nat {
    if retries > 0 then retries + 1 else 1
  }

  /**
   * `retryFetch(url, options, retries)`, where `outcomes[k]` is what the
   * k-th `fetch` call does (the delay between calls is left out). It makes at
   * most `retries + 1` calls and yields the first response that is `ok`; when
   * every call fails it throws the error of the last one.
   */
  function RetryFetch(outcomes: seq<Attempt>, retries: int): (r: Result<Response, string>)
    requires |outcomes| >= AttemptBudget(retries)
    ensures r.Ok? <==> exists k :: 0 <= k < AttemptBudget(retries) && Succeeded(outcomes[k])
    ensures r.Ok? ==>
      exists k :: (0 <= k < AttemptBudget(retries) && Succeeded(outcomes[k])
        && r.value == outcomes[k].response && (forall j :: 0 <= j < k ==> !Succeeded(outcomes[j])))
    ensures r.Err? ==> r.error == AttemptError(outcomes[AttemptBudget(retries) - 1])
    decreases if retries > 0 then retries else 0
  {
    if Succeeded(outcomes[0]) then Ok(outcomes[0].response)
    else if retries > 0 then
      var r := RetryFetch(outcomes[1..], retries - 1);
      assert forall k :: 1 <= k < AttemptBudget(retries) ==> outcomes[k] == outcomes[1..][k - 1];
      if r.Ok? then
        ghost var k :| 0 <= k < AttemptBudget(retries - 1) && Succeeded(outcomes[1..][k])
          && r.value == outcomes[1..][k].response && (forall j :: 0 <= j < k ==> !Succeeded(outcomes[1..][j]));
        assert outcomes[k + 1] == outcomes[1..][k];
        assert forall j :: 1 <= j < k + 1 ==> outcomes[j] == outcomes[1..][j - 1];
        r
      else r
    else Err(AttemptError(outcomes[0]))
  }

  /** Outcomes beyond the attempt budget are never looked at; with `retries`
      at 0 or below only the first call matters. */
  lemma RetryFetchIgnoresLaterOutcomes(outcomes: seq<Attempt>, more: seq<Attempt>, retries: int)
    requires |outcomes| >= AttemptBudget(retries)
    ensures RetryFetch(outcomes + more, retries) == RetryFetch(outcomes, retries)
    ensures retries <= 0 ==>
      RetryFetch(outcomes, retries) == RetryFetch(outcomes[..1], retries)
  {
    var r1 := RetryFetch(outcomes + more, retries);
    var r2 := RetryFetch(outcomes, retries);
    assert forall k :: 0 <= k < AttemptBudget(retries) ==> (outcomes + more)[k] == outcomes[k];
    if r1.Ok? && r2.Ok? {
      var k1 :| 0 <= k1 < AttemptBudget(retries) && Succeeded((outcomes + more)[k1])
        && r1.value == (outcomes + more)[k1].response
        && (forall j :: 0 <= j < k1 ==> !Succeeded((outcomes + more)[j]));
      var k2 :| 0 <= k2 < AttemptBudget(retries) && Succeeded(outcomes[k2])
        && r2.value == outcomes[k2].response && (forall j :: 0 <= j < k2 ==> !Succeeded(outcomes[j]));
      assert k1 == k2;
    }
  }

  // ---------------------------------------------------------------------------
  // Reading statistics

  /** The characters the class `[一-龥]` matches. */
  predicate IsChineseCharacter(c: char) {
    '\U{4E00}' <= c <= '\U{9FA5}'
  }

  /** `countChineseCharacters(text)`: the number of matches of the global
      class, 0 when `match` finds none. */
  function CountChineseCharacters(text: string): (r: nat)
    ensures r <= |text|
    ensures r == 0 <==> forall i :: 0 <= i < |text| ==> !IsChineseCharacter(text[i])
    ensures r == |text| <==> forall i :: 0 <= i < |text| ==> IsChineseCharacter(text[i])
  {
    if text == [] then 0
    else
      var rest := CountChineseCharacters(text[1..]);
      assert forall i :: 1 <= i < |text| ==> text[i] == text[1..][i - 1];
      (if IsChineseCharacter(text[0]) then 1 else 0) + rest
  }

  /** The count is additive over concatenation. */
  lemma {:induction false} CountChineseCharactersAppend(a: string, b: string)
    ensures CountChineseCharacters(a + b) == CountChineseCharacters(a) + CountChineseCharacters(b)
  {
    if a != [] {
      assert (a + b)[0] == a[0];
      assert (a + b)[1..] == a[1..] + b;
      CountChineseCharactersAppend(a[1..], b);
    } else {
      assert a + b == b;
    }
  }

  const DEFAULT_WORDS_PER_MINUTE: int := 200

  /** `Math.ceil(words / wpm)` for a non-zero rate. */
  function CeilDiv(words: nat, wpm: int): (m: int)
    requires wpm != 0
    ensures wpm > 0 ==> m * wpm >= words && (m - 1) * wpm < words
    ensures wpm < 0 ==> m * wpm <= words && (m - 1) * wpm > words
  {
    if wpm > 0 then
      (if words % wpm == 0 then words / wpm else words / wpm + 1)
    else
      -(words / -wpm)
  }

  lemma MulCancel(a: int, b: int, c: int)
    requires c > 0 && a * c > b * c
    ensures a > b
  {
  }

  /** The result of `estimateReadingTime`; `minutes` is `None` where the
      division by a zero rate leaves no finite number. */
  datatype ReadingTime = ReadingTime(minutes: Option<int>, words: nat)

  /** `estimateReadingTime(text, wpm)`. */
  function EstimateReadingTime(text: string, wpm: int): (r: ReadingTime)
    ensures r.words == CountChineseCharacters(text)
    ensures r.minutes.None? <==> wpm == 0
    ensures wpm > 0 ==>
      (r.minutes.Some? && r.minutes.value * wpm >= r.words && forall m :: m * wpm >= r.words ==> r.minutes.value <= m)
  {
    var words := CountChineseCharacters(text);
    if wpm == 0 then ReadingTime(None, words)
    else
      var m := CeilDiv(words, wpm);
      assert wpm > 0 ==> forall k :: k * wpm >= words ==> m <= k by {
        if wpm > 0 {
          forall k | k * wpm >= words ensures m <= k {
            MulCancel(k, m - 1, wpm);
          }
        }
      }
      ReadingTime(Some(m), words)
  }
}
