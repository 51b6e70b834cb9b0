/**
 * String helpers with the semantics of the JavaScript built-ins the plugin
 * uses: number rendering, `parseInt(s, 10)`, `includes`, `indexOf`,
 * `replace` with a string pattern, `join`, `split` on one character,
 * `padStart`, `trim`, and the `split(/[\\/]/).pop()` idiom.
 * Strings are sequences of Unicode scalar values.
 */
module Text {
  import opened Wrappers

  // ---------------------------------------------------------------------------
  // Decimal numbers

  predicate IsDigit(c: char) { '0' <= c <= '9' }

  predicate AllDigits(s: string) { forall i :: 0 <= i < |s| ==> IsDigit(s[i]) }

  function DigitChar(d: nat): (c: char)
    requires d < 10
    ensures IsDigit(c) && c as int - '0' as int == d
  {
    (('0' as int) + d) as char
  }

  /** The number a string of decimal digits denotes (leading zeros allowed). */
  function DigitsValue(s: string): nat
    requires AllDigits(s)
  {
    if s == [] then 0 else DigitsValue(s[..|s| - 1]) * 10 + (s[|s| - 1] as int - '0' as int)
  }

  /** `${n}` for a non-negative integer: shortest decimal rendering. */
  function NatToString(n: nat): (s: string)
    ensures |s| >= 1 && AllDigits(s)
    ensures DigitsValue(s) == n
    ensures |s| > 1 ==> s[0] != '0'
  {
    if n < 10 then [DigitChar(n)]
    else
      var init := NatToString(n / 10);
      var s := init + [DigitChar(n % 10)];
      assert s[..|s| - 1] == init;
      s
  }

  /** Leading zeros do not change the value of a digit string. */
  lemma {:induction false} DigitsValueLeadingZeros(k: nat, d: string)
    requires AllDigits(d)
    ensures AllDigits(Repeat('0', k) + d)
    ensures DigitsValue(Repeat('0', k) + d) == DigitsValue(d)
  {
    var z := Repeat('0', k);
    if d == [] {
      assert z + d == z;
      ZerosValue(k);
    } else {
      var init := d[..|d| - 1];
      assert (z + d)[..|z + d| - 1] == z + init;
      DigitsValueLeadingZeros(k, init);
    }
  }

  lemma {:induction false} ZerosValue(k: nat)
    ensures AllDigits(Repeat('0', k)) && DigitsValue(Repeat('0', k)) == 0
  {
    if k > 0 {
      var z := Repeat('0', k);
      assert z[..|z| - 1] == Repeat('0', k - 1);
      ZerosValue(k - 1);
    }
  }

  /** Numbers below 100 render in at most two digits. */
  lemma NatToStringBelowHundred(n: nat)
    requires n < 100
    ensures |NatToString(n)| <= 2
  {
    if n >= 10 {
      assert |NatToString(n / 10)| == 1;
    }
  }

  /** `${i}` for an integer. */
  function IntToString(i: int): (s: string)
    ensures |s| >= 1
    ensures i >= 0 ==> s == NatToString(i)
    ensures i < 0 ==> s == "-" + NatToString(-i)
  {
    if i < 0 then "-" + NatToString(-i) else NatToString(i)
  }

  // ---------------------------------------------------------------------------
  // Whitespace, trimming and parseInt

  /** JavaScript's WhiteSpace and LineTerminator characters (what `trim` removes). */
  predicate IsSpace(c: char) {
    c == ' ' || c == '\t' || c == '\n' || c == '\r' || c == '\U{000B}' || c == '\U{000C}'
    || c == '\U{00A0}' || c == '\U{1680}' || ('\U{2000}' <= c <= '\U{200A}')
    || c == '\U{2028}' || c == '\U{2029}' || c == '\U{202F}' || c == '\U{205F}'
    || c == '\U{3000}' || c == '\U{FEFF}'
  }

  /** `s.trimStart()`: drops the leading whitespace and nothing else. */
  function TrimStart(s: string): (r: string)
    ensures |r| <= |s| && r == s[|s| - |r|..]
    ensures forall i :: 0 <= i < |s| - |r| ==> IsSpace(s[i])
    ensures r == [] || !IsSpace(r[0])
  {
    if s != [] && IsSpace(s[0]) then TrimStart(s[1..]) else s
  }

  /** `s.trimEnd()`: drops the trailing whitespace and nothing else. */
  function TrimEnd(s: string): (r: string)
    ensures |r| <= |s| && r == s[..|r|]
    ensures forall i :: |r| <= i < |s| ==> IsSpace(s[i])
    ensures r == [] || !IsSpace(r[|r| - 1])
  {
    if s != [] && IsSpace(s[|s| - 1]) then TrimEnd(s[..|s| - 1]) else s
  }

  /** `s.trim()`. */
  function Trim(s: string): string {
    TrimEnd(TrimStart(s))
  }

  /** The longest prefix of `s` made of decimal digits. */
  function LeadingDigits(s: string): (d: string)
    ensures |d| <= |s| && d == s[..|d|] && AllDigits(d)
    ensures |d| == |s| || !IsDigit(s[|d|])
  {
    if s != [] && IsDigit(s[0]) then [s[0]] + LeadingDigits(s[1..]) else []
  }

  /**
   * `parseInt(s, 10)`: leading whitespace, an optional sign, then the longest
   * run of digits; `None` stands for `NaN` (no digit after the sign).
   */
  function ParseInt(s: string): Option<int> {
    ParseSigned(TrimStart(s))
  }

  /** `parseInt` after the leading whitespace: an optional sign, then digits. */
  function ParseSigned(t: string): Option<int> {
    var negative := |t| > 0 && t[0] == '-';
    var unsigned := if |t| > 0 && (t[0] == '-' || t[0] == '+') then t[1..] else t;
    var d := LeadingDigits(unsigned);
    var magnitude: int := DigitsValue(d);
    if d == [] then None else Some(if negative then -magnitude else magnitude)
  }

  /** On a string that does not start with whitespace, `parseInt` reads the sign and digits directly. */
  lemma ParseIntOfPlain(s: string)
    requires s == [] || !IsSpace(s[0])
    ensures ParseInt(s) == ParseSigned(s)
  {
  }

  lemma {:induction false} LeadingDigitsOfDigits(d: string, rest: string)
    requires AllDigits(d)
    requires rest == [] || !IsDigit(rest[0])
    ensures LeadingDigits(d + rest) == d
  {
    if d != [] {
      assert (d + rest)[1..] == d[1..] + rest;
      LeadingDigitsOfDigits(d[1..], rest);
    }
  }

  /** Unsigned digits followed by a non-digit read back as their value. */
  lemma ParseSignedOfDigits(n: string, rest: string)
    requires |n| >= 1 && AllDigits(n)
    requires rest == [] || !IsDigit(rest[0])
    ensures ParseSigned(n + rest) == Some(DigitsValue(n) as int)
  {
    LeadingDigitsOfDigits(n, rest);
    var t := n + rest;
    assert t[0] == n[0];
    assert !(t[0] == '-' || t[0] == '+');
  }

  /** A leading minus sign negates what the digits after it read as. */
  lemma ParseSignedMinus(u: string)
    ensures ParseSigned(['-'] + u)
         == if LeadingDigits(u) == [] then None else Some(-(DigitsValue(LeadingDigits(u)) as int))
  {
    var t := ['-'] + u;
    assert t[1..] == u;
  }

  /** A minus sign before the digits negates the value. */
  lemma ParseSignedOfNegative(n: string, rest: string)
    requires n != [] && LeadingDigits(n + rest) == n
    ensures ParseSigned(['-'] + (n + rest)) == Some(-(DigitsValue(n) as int))
  {
    ParseSignedMinus(n + rest);
  }

  lemma SignedConcat(c: char, a: string, b: string)
    ensures [c] + a + b == [c] + (a + b)
    ensures ([c] + (a + b))[0] == c
  {
  }

  /** Round trip: `parseInt` reads back the rendering of any integer, whatever
      non-digit text follows it. */
  lemma ParseIntOfIntToString(i: int, rest: string)
    requires rest == [] || !IsDigit(rest[0])
    ensures ParseInt(IntToString(i) + rest) == Some(i)
  {
    if i < 0 {
      var n := NatToString(-i);
      LeadingDigitsOfDigits(n, rest);
      ParseSignedOfNegative(n, rest);
      SignedConcat('-', n, rest);
      ParseIntOfPlain(['-'] + (n + rest));
    } else {
      var n := NatToString(i);
      LeadingDigitsOfDigits(n, rest);
      ParseSignedOfDigits(n, rest);
      assert (n + rest)[0] == n[0];
      ParseIntOfPlain(n + rest);
    }
  }

  // ---------------------------------------------------------------------------
  // Searching and replacing

  predicate OccursAt(s: string, pat: string, i: nat) {
    i + |pat| <= |s| && s[i..i + |pat|] == pat
  }

  /** `s.indexOf(pat, from)`: the leftmost occurrence at or after `from`. */
  function IndexOf(s: string, pat: string, from: nat): (r: Option<nat>)
    ensures r.Some? ==> from <= r.value && OccursAt(s, pat, r.value)
    ensures r.Some? ==> forall j: nat :: from <= j < r.value ==> !OccursAt(s, pat, j)
    ensures r.None? ==> forall j: nat :: from <= j ==> !OccursAt(s, pat, j)
    decreases |s| - from
  {
    if from + |pat| > |s| then None
    else if s[from..from + |pat|] == pat then Some(from)
    else IndexOf(s, pat, from + 1)
  }

  /** An occurrence that ends inside a prefix does not see what follows it. */
  lemma OccursInPrefix(p: string, q: string, pat: string, j: nat)
    requires j + |pat| <= |p|
    ensures OccursAt(p + q, pat, j) <==> OccursAt(p, pat, j)
  {
    assert (p + q)[j..j + |pat|] == p[j..j + |pat|];
  }

  /** A marker placed after a text in which it does not start is found there,
      and what follows it is the rest. */
  lemma FirstOccurrenceAfter(before: string, m: string, rest: string)
    requires forall j: nat :: j < |before| ==> !OccursAt(before + m, m, j)
    ensures IndexOf(before + m + rest, m, 0) == Some(|before|)
    ensures (before + m + rest)[|before| + |m|..] == rest
  {
    var s := before + m + rest;
    assert s == (before + m) + rest;
    assert s[|before|..|before| + |m|] == m;
    assert OccursAt(s, m, |before|);
    forall j: nat | j < |before| ensures !OccursAt(s, m, j) {
      OccursInPrefix(before + m, rest, m, j);
    }
    var r := IndexOf(s, m, 0);
    assert r.Some?;
    assert !(r.value < |before|);
    assert !(|before| < r.value);
  }

  /** `s.includes(pat)`. */
  predicate Contains(s: string, pat: string) {
    IndexOf(s, pat, 0).Some?
  }

  lemma ContainsIff(s: string, pat: string)
    ensures Contains(s, pat) <==> exists j: nat :: OccursAt(s, pat, j)
  {
  }

  /** The first character of an occurrence is the pattern's first character. */
  lemma OccurrenceStarts(s: string, pat: string, j: nat)
    requires pat != []
    ensures OccursAt(s, pat, j) ==> s[j] == pat[0]
  {
    if OccursAt(s, pat, j) {
      assert s[j..j + |pat|][0] == s[j];
    }
  }

  /** A pattern whose first character appears nowhere before `i` is first found at `i`. */
  lemma IndexOfAt(s: string, pat: string, i: nat)
    requires pat != [] && OccursAt(s, pat, i)
    requires pat[0] !in s[..i]
    ensures IndexOf(s, pat, 0) == Some(i)
  {
    forall j: nat | j < i ensures !OccursAt(s, pat, j) {
      assert s[..i][j] == s[j];
      OccurrenceStarts(s, pat, j);
    }
  }

  /** A pattern whose first character appears only at `i` occurs only at `i`. */
  lemma OnlyOccurrence(s: string, pat: string, i: nat)
    requires pat != [] && OccursAt(s, pat, i)
    requires pat[0] !in s[..i] && pat[0] !in s[i + 1..]
    ensures forall j: nat :: OccursAt(s, pat, j) <==> j == i
  {
    forall j: nat | j < |s| ensures OccursAt(s, pat, j) ==> j == i {
      OccurrenceStarts(s, pat, j);
      assert j < i ==> s[..i][j] == s[j];
      assert j > i ==> s[i + 1..][j - i - 1] == s[j];
    }
  }

  /** `s.replace(pat, rep)` with a string pattern and a replacement without `$`:
      the first occurrence only. */
  function ReplaceFirst(s: string, pat: string, rep: string): (r: string)
    ensures !Contains(s, pat) ==> r == s
    ensures Contains(s, pat) ==>
      var i := IndexOf(s, pat, 0).value;
      r == s[..i] + rep + s[i + |pat|..]
  {
    match IndexOf(s, pat, 0)
    case None => s
    case Some(i) => s[..i] + rep + s[i + |pat|..]
  }

  // ---------------------------------------------------------------------------
  // Joining and splitting

  /** `"${s}"`. */
  function Quoted(s: string): string {
    "\"" + s + "\""
  }

  /** `parts.join(sep)`. */
  function Join(parts: seq<string>, sep: string): string {
    if |parts| == 0 then ""
    else if |parts| == 1 then parts[0]
    else parts[0] + sep + Join(parts[1..], sep)
  }

  /** Joining is a monoid homomorphism on non-empty lists. */
  lemma {:induction false} JoinAppend(a: seq<string>, b: seq<string>, sep: string)
    requires |a| > 0 && |b| > 0
    ensures Join(a + b, sep) == Join(a, sep) + sep + Join(b, sep)
  {
    if |a| == 1 {
      assert (a + b)[1..] == b;
    } else {
      assert (a + b)[1..] == a[1..] + b;
      JoinAppend(a[1..], b, sep);
    }
  }

  /** Joining slots that are themselves joined word lists is joining the words. */
  lemma JoinThreeSlots(head: seq<string>, p: string, v: seq<string>, mid: seq<string>,
                       q: string, w: seq<string>, r: string, x: seq<string>, tail: seq<string>, sep: string)
    requires |head| > 0 && |mid| > 0 && |tail| > 0 && |v| > 0 && |w| > 0 && |x| > 0
    requires p == Join(v, sep) && q == Join(w, sep) && r == Join(x, sep)
    ensures Join(head + [p] + mid + [q] + [r] + tail, sep) == Join(head + v + mid + w + x + tail, sep)
  {
    JoinAppend(head + [p] + mid + [q] + [r], tail, sep);
    JoinAppend(head + [p] + mid + [q], [r], sep);
    JoinAppend(head + [p] + mid, [q], sep);
    JoinAppend(head + [p], mid, sep);
    JoinAppend(head, [p], sep);
    JoinAppend(head + v + mid + w + x, tail, sep);
    JoinAppend(head + v + mid + w, x, sep);
    JoinAppend(head + v + mid, w, sep);
    JoinAppend(head + v, mid, sep);
    JoinAppend(head, v, sep);
  }

  /** `s.split(c)` for a one-character separator. */
  function SplitOn(s: string, c: char): (parts: seq<string>)
    ensures |parts| >= 1
  {
    if s == [] then [[]]
    else
      var rest := SplitOn(s[1..], c);
      if s[0] == c then [[]] + rest else [[s[0]] + rest[0]] + rest[1..]
  }

  /** No piece of a split contains the separator. */
  lemma {:induction false} SplitOnPiecesFree(s: string, c: char)
    ensures forall k, j :: 0 <= k < |SplitOn(s, c)| && 0 <= j < |SplitOn(s, c)[k]| ==> SplitOn(s, c)[k][j] != c
  {
    if s != [] {
      SplitOnPiecesFree(s[1..], c);
    }
  }

  /** Round trip: joining the pieces of a split with the separator restores the string. */
  lemma {:induction false} JoinSplitOn(s: string, c: char)
    ensures Join(SplitOn(s, c), [c]) == s
  {
    if s != [] {
      var rest := SplitOn(s[1..], c);
      JoinSplitOn(s[1..], c);
      if s[0] == c {
        assert Join([[]] + rest, [c]) == [] + [c] + Join(rest, [c]);
      } else if |rest| == 1 {
        assert [[s[0]] + rest[0]] + rest[1..] == [[s[0]] + rest[0]];
      } else {
        var parts := [[s[0]] + rest[0]] + rest[1..];
        assert parts[1..] == rest[1..];
        assert Join(rest, [c]) == rest[0] + [c] + Join(rest[1..], [c]);
      }
    }
  }

  lemma {:induction false} SplitOnFree(s: string, c: char)
    requires forall j :: 0 <= j < |s| ==> s[j] != c
    ensures SplitOn(s, c) == [s]
  {
    if s != [] {
      SplitOnFree(s[1..], c);
      assert [s[0]] + s[1..] == s;
    }
  }

  /** Splitting distributes over a separator occurrence. */
  lemma {:induction false} SplitOnAround(a: string, b: string, c: char)
    ensures SplitOn(a + [c] + b, c) == SplitOn(a, c) + SplitOn(b, c)
  {
    if a == [] {
      assert a + [c] + b == [c] + b;
      SplitOnCons(c, b, c);
    } else {
      var t := a[1..];
      assert a == [a[0]] + t;
      assert a + [c] + b == [a[0]] + (t + [c] + b);
      SplitOnAround(t, b, c);
      SplitOnCons(a[0], t + [c] + b, c);
      SplitOnCons(a[0], t, c);
      if a[0] != c {
        FirstPieceGrows([a[0]], SplitOn(t, c), SplitOn(b, c));
      } else {
        RegroupThree([[]], SplitOn(t, c), SplitOn(b, c));
      }
    }
  }

  /** Splitting a string that starts with `x`. */
  lemma SplitOnCons(x: char, t: string, c: char)
    ensures SplitOn([x] + t, c)
         == if x == c then [[]] + SplitOn(t, c) else [[x] + SplitOn(t, c)[0]] + SplitOn(t, c)[1..]
  {
    assert ([x] + t)[0] == x && ([x] + t)[1..] == t;
  }

  /** Prepending to the first piece commutes with appending more pieces. */
  lemma FirstPieceGrows<T>(x: seq<T>, left: seq<seq<T>>, right: seq<seq<T>>)
    requires |left| >= 1
    ensures [x + (left + right)[0]] + (left + right)[1..] == [x + left[0]] + left[1..] + right
  {
    assert (left + right)[0] == left[0];
    assert (left + right)[1..] == left[1..] + right;
  }

  /** The pieces of every part, in order. */
  function SplitAll(parts: seq<string>, c: char): seq<string> {
    if parts == [] then [] else SplitOn(parts[0], c) + SplitAll(parts[1..], c)
  }

  /** Three pieces free of the separator, joined by it, split back into themselves. */
  lemma SplitOnThree(a: string, b: string, d: string, c: char)
    requires Free(a, c) && Free(b, c) && Free(d, c)
    ensures SplitOn(a + [c] + b + [c] + d, c) == [a, b, d]
  {
    assert a + [c] + b + [c] + d == a + [c] + (b + [c] + d);
    SplitOnAround(a, b + [c] + d, c);
    SplitOnAround(b, d, c);
    SplitOnFree(a, c);
    SplitOnFree(b, c);
    SplitOnFree(d, c);
  }

  /** Splitting a joined list on its separator splits every part in turn. */
  lemma {:induction false} SplitOnJoin(parts: seq<string>, c: char)
    requires |parts| >= 1
    ensures SplitOn(Join(parts, [c]), c) == SplitAll(parts, c)
  {
    if |parts| == 1 {
      assert parts[1..] == [];
    } else {
      SplitOnAround(parts[0], Join(parts[1..], [c]), c);
      SplitOnJoin(parts[1..], c);
    }
  }

  /** `s` does not contain `c`. */
  predicate Free(s: string, c: char) {
    forall j :: 0 <= j < |s| ==> s[j] != c
  }

  /** A suffix of a string without `c` is without `c`. */
  lemma SuffixFree(s: string, suffix: string, c: char)
    requires |suffix| <= |s| && suffix == s[|s| - |suffix|..] && Free(s, c)
    ensures Free(suffix, c)
  {
    forall j | 0 <= j < |suffix| ensures suffix[j] != c {
      assert suffix[j] == s[|s| - |suffix| + j];
    }
  }

  /** None of `parts` contains `c`. */
  predicate AllFree(parts: seq<string>, c: char) {
    forall i :: 0 <= i < |parts| ==> Free(parts[i], c)
  }

  lemma AllFreeAppend(a: seq<string>, b: seq<string>, c: char)
    requires AllFree(a, c) && AllFree(b, c)
    ensures AllFree(a + b, c)
  {
    forall i | 0 <= i < |a + b| ensures Free((a + b)[i], c) {
      if i < |a| {
        assert (a + b)[i] == a[i];
      } else {
        assert (a + b)[i] == b[i - |a|];
      }
    }
  }

  /** Joining parts free of the separator and splitting again gives the parts back. */
  lemma {:induction false} SplitJoinFree(parts: seq<string>, c: char)
    requires |parts| >= 1
    requires forall i :: 0 <= i < |parts| ==> Free(parts[i], c)
    ensures SplitOn(Join(parts, [c]), c) == parts
  {
    SplitOnJoin(parts, c);
    SplitAllFree(parts, c);
  }

  lemma {:induction false} SplitAllFree(parts: seq<string>, c: char)
    requires forall i :: 0 <= i < |parts| ==> Free(parts[i], c)
    ensures SplitAll(parts, c) == parts
  {
    if parts != [] {
      SplitOnFree(parts[0], c);
      SplitAllFree(parts[1..], c);
    }
  }

  lemma {:induction false} SplitAllAppend(a: seq<string>, b: seq<string>, c: char)
    ensures SplitAll(a + b, c) == SplitAll(a, c) + SplitAll(b, c)
  {
    if a == [] {
      assert a + b == b;
    } else {
      assert (a + b)[0] == a[0];
      assert (a + b)[1..] == a[1..] + b;
      SplitAllAppend(a[1..], b, c);
    }
  }

  lemma SplitAllSingle(s: string, c: char)
    ensures SplitAll([s], c) == SplitOn(s, c)
  {
    assert [s][1..] == [];
  }

  /** Decimal numerals hold nothing but digits and a sign. */
  lemma IntToStringFree(n: int, c: char)
    requires !IsDigit(c) && c != '-'
    ensures Free(IntToString(n), c)
  {
    var d := NatToString(if n < 0 then -n else n);
    assert forall j :: 0 <= j < |d| ==> IsDigit(d[j]);
  }

  /** Regrouping a concatenation of three strings. */
  lemma RegroupThree<T>(x: seq<T>, y: seq<T>, z: seq<T>)
    ensures x + y + z == x + (y + z)
  {
  }

  /** Regrouping a concatenation of four strings. */
  lemma RegroupFour(w: string, x: string, y: string, z: string)
    ensures w + x + y + z == w + (x + y + z)
  {
  }

  /** Joining a list of at least three parts spells out the first two. */
  lemma JoinFirstTwo(s: seq<string>, sep: string)
    requires |s| >= 3
    ensures Join(s, sep) == s[0] + sep + s[1] + sep + Join(s[2..], sep)
  {
    assert s[1..][1..] == s[2..];
    RegroupFour(s[0] + sep, s[1], sep, Join(s[2..], sep));
  }

  lemma JoinTwo(a: string, b: string, sep: string)
    ensures Join([a, b], sep) == a + sep + b
  {
    assert [a, b][1..] == [b];
  }

  lemma JoinFour(a: string, b: string, c: string, d: string, sep: string)
    ensures Join([a, b, c, d], sep) == a + sep + b + sep + c + sep + d
  {
    assert [a, b, c, d][1..] == [b, c, d];
    assert [b, c, d][1..] == [c, d];
    JoinTwo(c, d, sep);
    assert Join([b, c, d], sep) == b + sep + (c + sep + d);
    assert b + sep + (c + sep + d) == b + sep + c + sep + d;
    assert a + sep + (b + sep + c + sep + d) == a + sep + b + sep + c + sep + d;
  }

  // ---------------------------------------------------------------------------
  // Padding and path segments

  function Repeat(c: char, k: nat): (r: string)
    ensures |r| == k && forall i :: 0 <= i < k ==> r[i] == c
  {
    if k == 0 then [] else [c] + Repeat(c, k - 1)
  }

  /** `s.padStart(width, c)` for a one-character pad string. */
  function PadStart(s: string, width: nat, c: char): (r: string)
    ensures |r| == if |s| >= width then |s| else width
    ensures r[|r| - |s|..] == s
    ensures forall i :: 0 <= i < |r| - |s| ==> r[i] == c
  {
    if |s| >= width then s else Repeat(c, width - |s|) + s
  }

  predicate IsPathSeparator(c: char) { c == '/' || c == '\\' }

  /** `s.split(/[\\/]/).pop()`: the longest suffix free of `/` and `\`. */
  function LastSegment(s: string): (r: string)
    ensures |r| <= |s| && r == s[|s| - |r|..]
    ensures forall i :: 0 <= i < |r| ==> !IsPathSeparator(r[i])
    ensures |r| < |s| ==> IsPathSeparator(s[|s| - |r| - 1])
  {
    if s == [] then []
    else if IsPathSeparator(s[|s| - 1]) then []
    else LastSegment(s[..|s| - 1]) + [s[|s| - 1]]
  }

  /** The segment after the last separator is the part after a separator
      that is followed by no other. */
  lemma {:induction false} LastSegmentAfter(a: string, sep: char, b: string)
    requires IsPathSeparator(sep)
    requires forall i :: 0 <= i < |b| ==> !IsPathSeparator(b[i])
    ensures LastSegment(a + [sep] + b) == b
  {
    var s := a + [sep] + b;
    if b == [] {
      assert s[|s| - 1] == sep;
    } else {
      var init := b[..|b| - 1];
      assert s[..|s| - 1] == a + [sep] + init;
      assert s[|s| - 1] == b[|b| - 1];
      LastSegmentAfter(a, sep, init);
      assert init + [b[|b| - 1]] == b;
    }
  }

  /** A string that neither starts nor ends with whitespace is its own trim. */
  lemma TrimUnpadded(s: string)
    requires s != [] && !IsSpace(s[0]) && !IsSpace(s[|s| - 1])
    ensures Trim(s) == s
  {
  }

  /** Line terminators, the characters a regular-expression `.` does not match. */
  predicate IsLineTerminator(c: char) {
    c == '\n' || c == '\r' || c == '\U{2028}' || c == '\U{2029}'
  }

  /** What `(.*)` captures at the start of `s`: everything up to the first line terminator. */
  function RestOfLine(s: string): (r: string)
    ensures |r| <= |s| && r == s[..|r|]
    ensures forall i :: 0 <= i < |r| ==> !IsLineTerminator(r[i])
    ensures |r| == |s| || IsLineTerminator(s[|r|])
  {
    if s == [] || IsLineTerminator(s[0]) then [] else [s[0]] + RestOfLine(s[1..])
  }

  /** `(.*)` stops exactly at the first line terminator. */
  lemma {:induction false} RestOfLineUpTo(line: string, rest: string)
    requires forall i :: 0 <= i < |line| ==> !IsLineTerminator(line[i])
    requires rest == [] || IsLineTerminator(rest[0])
    ensures RestOfLine(line + rest) == line
  {
    if line == [] {
      assert line + rest == rest;
    } else {
      assert (line + rest)[1..] == line[1..] + rest;
      assert (line + rest)[0] == line[0];
      RestOfLineUpTo(line[1..], rest);
    }
  }
}
