/** String helpers that stand for the JavaScript built-ins the source calls:
    `String.prototype.trim`, `toLowerCase`/`toUpperCase` (ASCII letters only),
    `split(/\s+/)`, `Array.prototype.join`, and decimal rendering of numbers. */
module Text {

  /** The characters JavaScript's `trim` and the regex class `\s` treat as
      white space: WhiteSpace and LineTerminator of ECMAScript. */
  predicate IsWhitespace(c: char) {
    c == '\t' || c == '\n' || c == '\U{000B}' || c == '\U{000C}' || c == '\r' || c == ' ' ||
    c == '\U{00A0}' || c == '\U{1680}' || ('\U{2000}' <= c <= '\U{200A}') ||
    c == '\U{2028}' || c == '\U{2029}' || c == '\U{202F}' || c == '\U{205F}' ||
    c == '\U{3000}' || c == '\U{FEFF}'
  }

  predicate NoWhitespace(s: string) {
    forall k :: 0 <= k < |s| ==> !IsWhitespace(s[k])
  }

  /** Drops the leading white space; the result does not start with white space. */
  function TrimStart(s: string): (r: string)
    ensures |r| <= |s|
    ensures r == [] || !IsWhitespace(r[0])
  {
    if s == [] || !IsWhitespace(s[0]) then s else TrimStart(s[1..])
  }

  /** What `TrimStart` drops is a prefix of white space. */
  lemma {:induction false} TrimStartSuffix(s: string)
    ensures TrimStart(s) == s[|s| - |TrimStart(s)|..]
    ensures forall k :: 0 <= k < |s| - |TrimStart(s)| ==> IsWhitespace(s[k])
    decreases |s|
  {
    if s != [] && IsWhitespace(s[0]) {
      TrimStartSuffix(s[1..]);
    }
  }

  /** Drops the trailing white space; the result does not end with white space. */
  function TrimEnd(s: string): (r: string)
    ensures |r| <= |s|
    ensures r == [] || !IsWhitespace(r[|r| - 1])
    ensures s != [] && !IsWhitespace(s[0]) ==> r != [] && r[0] == s[0]
  {
    if s == [] || !IsWhitespace(s[|s| - 1]) then s else TrimEnd(s[..|s| - 1])
  }

  /** What `TrimEnd` drops is a suffix of white space. */
  lemma {:induction false} TrimEndPrefix(s: string)
    ensures TrimEnd(s) == s[..|TrimEnd(s)|]
    ensures forall k :: |TrimEnd(s)| <= k < |s| ==> IsWhitespace(s[k])
    decreases |s|
  {
    if s != [] && IsWhitespace(s[|s| - 1]) {
      TrimEndPrefix(s[..|s| - 1]);
    }
  }

  /** `s.trim()`: neither starts nor ends with white space. */
  function Trim(s: string): (r: string)
    ensures |r| <= |s|
    ensures r == [] || (!IsWhitespace(r[0]) && !IsWhitespace(r[|r| - 1]))
  {
    TrimEnd(TrimStart(s))
  }

  /** `Trim(s)` is a contiguous slice of `s`, and all it removed is white space. */
  lemma TrimSlice(s: string)
    ensures var i := |s| - |TrimStart(s)|; var r := Trim(s);
      i + |r| <= |s| && r == s[i..i + |r|] &&
      (forall k :: 0 <= k < i ==> IsWhitespace(s[k])) &&
      (forall k :: i + |r| <= k < |s| ==> IsWhitespace(s[k]))
  {
    var t := TrimStart(s);
    TrimStartSuffix(s);
    TrimEndPrefix(t);
    var i := |s| - |t|;
    var r := TrimEnd(t);
    assert Trim(s) == r;
    assert t == s[i..] && r == t[..|r|];
    assert r == s[i..i + |r|] by {
      forall k | 0 <= k < |r| ensures r[k] == s[i + k] {
        assert r[k] == t[k];
      }
    }
    forall k | i + |r| <= k < |s| ensures IsWhitespace(s[k]) {
      assert t[k - i] == s[k];
    }
  }

  /** Trimming twice is trimming once. */
  lemma TrimIdempotent(s: string)
    ensures Trim(Trim(s)) == Trim(s)
  {
    var r := Trim(s);
    assert TrimStart(r) == r;
    assert TrimEnd(r) == r;
  }

  /** A string that has no white space at either end is its own trim. */
  lemma TrimOfTrimmed(s: string)
    requires s == [] || (!IsWhitespace(s[0]) && !IsWhitespace(s[|s| - 1]))
    ensures Trim(s) == s
  {
    assert TrimStart(s) == s;
    assert TrimEnd(s) == s;
  }

  /** Trimming a lower-case string leaves it lower-case. */
  lemma TrimKeepsLower(s: string)
    requires ToLower(s) == s
    ensures ToLower(Trim(s)) == Trim(s)
  {
    TrimSlice(s);
    var i := |s| - |TrimStart(s)|;
    var r := Trim(s);
    forall k | 0 <= k < |r| ensures ToLowerChar(r[k]) == r[k] {
      assert r[k] == s[i + k];
      assert ToLower(s)[i + k] == ToLowerChar(s[i + k]);
    }
  }

  function ToLowerChar(c: char): char {
    if 'A' <= c <= 'Z' then (c as int + 32) as char else c
  }

  function ToUpperChar(c: char): char {
    if 'a' <= c <= 'z' then (c as int - 32) as char else c
  }

  /** `s.toLowerCase()` restricted to ASCII letters: same length, each character mapped. */
  function ToLower(s: string): (r: string)
    ensures |r| == |s| && forall k :: 0 <= k < |s| ==> r[k] == ToLowerChar(s[k])
  {
    seq(|s|, k requires 0 <= k < |s| => ToLowerChar(s[k]))
  }

  /** `s.toUpperCase()` restricted to ASCII letters. */
  function ToUpper(s: string): (r: string)
    ensures |r| == |s| && forall k :: 0 <= k < |s| ==> r[k] == ToUpperChar(s[k])
  {
    seq(|s|, k requires 0 <= k < |s| => ToUpperChar(s[k]))
  }

  lemma ToLowerIdempotent(s: string)
    ensures ToLower(ToLower(s)) == ToLower(s)
  {
  }

  lemma ToUpperIdempotent(s: string)
    ensures ToUpper(ToUpper(s)) == ToUpper(s)
  {
  }

  lemma ToUpperEmpty(s: string)
    ensures ToUpper(s) == [] <==> s == []
  {
  }

  /** Case-insensitive substring test (the `ILIKE '%needle%'` of the source, ASCII only). */
  predicate ContainsIgnoreCase(hay: string, needle: string) {
    var h, n := ToLower(hay), ToLower(needle);
    exists i :: 0 <= i <= |h| - |n| && OccursAt(h, n, i)
  }

  predicate OccursAt(h: string, n: string, i: int) {
    0 <= i && i + |n| <= |h| && h[i..i + |n|] == n
  }

  function DigitChar(d: nat): char
    requires d < 10
  {
    (48 + d) as char
  }

  /** Decimal rendering of a natural number, as JavaScript's template strings print it. */
  function NatToString(n: nat): (r: string)
    ensures |r| >= 1
    ensures forall k :: 0 <= k < |r| ==> '0' <= r[k] <= '9'
    decreases n
  {
    if n < 10 then [DigitChar(n)] else NatToString(n / 10) + [DigitChar(n % 10)]
  }

  /** Different numbers print differently. */
  lemma {:induction false} NatToStringInjective(a: nat, b: nat)
    requires NatToString(a) == NatToString(b)
    ensures a == b
    decreases a
  {
    if a >= 10 && b >= 10 {
      var sa, sb := NatToString(a), NatToString(b);
      assert sa[..|sa| - 1] == NatToString(a / 10);
      assert sb[..|sb| - 1] == NatToString(b / 10);
      NatToStringInjective(a / 10, b / 10);
      assert sa[|sa| - 1] == DigitChar(a % 10);
      assert sb[|sb| - 1] == DigitChar(b % 10);
    }
  }

  /** `words.join(sep)`. */
  function Join(words: seq<string>, sep: string): string
    decreases |words|
  {
    if |words| == 0 then "" else if |words| == 1 then words[0]
    else words[0] + sep + Join(words[1..], sep)
  }

  /** Joining two non-empty lists of words is joining each and gluing them with the separator. */
  lemma {:induction false} JoinAppend(a: seq<string>, b: seq<string>, sep: string)
    requires |a| > 0 && |b| > 0
    ensures Join(a + b, sep) == Join(a, sep) + sep + Join(b, sep)
    decreases |a|
  {
    if |a| == 1 {
      assert (a + b)[1..] == b;
    } else {
      assert (a + b)[1..] == a[1..] + b;
      JoinAppend(a[1..], b, sep);
    }
  }

  /** Index of the first white-space character, or |s| when there is none. */
  function FirstWhitespace(s: string): (i: nat)
    ensures i <= |s|
    ensures i < |s| ==> IsWhitespace(s[i])
    ensures forall k :: 0 <= k < i ==> !IsWhitespace(s[k])
  {
    if s == [] then 0 else if IsWhitespace(s[0]) then 0 else 1 + FirstWhitespace(s[1..])
  }

  /** `s.split(/\s+/)`: the pieces between maximal runs of white space. */
  function SplitWs(s: string): (words: seq<string>)
    ensures |words| >= 1
    ensures forall w :: w in words ==> NoWhitespace(w)
    decreases |s|
  {
    var i := FirstWhitespace(s);
    if i == |s| then [s]
    else [s[..i]] + SplitWs(TrimStart(s[i..]))
  }

  /** The white-space runs `split(/\s+/)` cuts at, in order. */
  function WsRuns(s: string): seq<string>
    decreases |s|
  {
    var i := FirstWhitespace(s);
    if i == |s| then []
    else
      var rest := TrimStart(s[i..]);
      [s[i..|s| - |rest|]] + WsRuns(rest)
  }

  /** The words with the runs between them, put back in order. */
  function Interleave(words: seq<string>, runs: seq<string>): string
    requires |words| == |runs| + 1
    decreases |runs|
  {
    if runs == [] then words[0] else words[0] + runs[0] + Interleave(words[1..], runs[1..])
  }

  /** A non-empty run of white space. */
  predicate IsWsRun(r: string) {
    r != [] && forall k :: 0 <= k < |r| ==> IsWhitespace(r[k])
  }

  /** `split(/\s+/)` cuts the string at its maximal white-space runs: there is one run fewer than
      words, each run is non-empty white space, and words and runs in turn make up the string. */
  lemma {:induction false} SplitWsRebuilds(s: string)
    ensures var words, runs := SplitWs(s), WsRuns(s);
      |runs| == |words| - 1 && (forall j :: 0 <= j < |runs| ==> IsWsRun(runs[j])) && Interleave(words, runs) == s
    decreases |s|
  {
    var i := FirstWhitespace(s);
    if i < |s| {
      var rest := TrimStart(s[i..]);
      var run := s[i..|s| - |rest|];
      SplitWsStep(s, i, rest, run);
      SplitWsRebuilds(rest);
      var words, runs := SplitWs(rest), WsRuns(rest);
      assert SplitWs(s) == [s[..i]] + words;
      assert WsRuns(s) == [run] + runs;
      InterleaveCons(s[..i], run, words, runs);
    }
  }

  /** One cut of `split`: the word before the first white space, the run, and the rest. */
  lemma SplitWsStep(s: string, i: nat, rest: string, run: string)
    requires i == FirstWhitespace(s) < |s| && rest == TrimStart(s[i..])
    requires |rest| <= |s| - i && run == s[i..|s| - |rest|]
    ensures |rest| < |s| - i && IsWsRun(run) && s == s[..i] + (run + rest)
  {
    var t := s[i..];
    assert run == t[..|t| - |rest|];
    RunThenRest(t, rest, run);
    assert s == s[..i] + t;
  }

  /** Trimming the start of a string that opens with white space drops a non-empty run. */
  lemma RunThenRest(t: string, rest: string, run: string)
    requires t != [] && IsWhitespace(t[0]) && rest == TrimStart(t) && run == t[..|t| - |rest|]
    ensures |rest| < |t| && IsWsRun(run) && t == run + rest
  {
    TrimStartSuffix(t);
    assert TrimStart(t) == TrimStart(t[1..]);
  }

  lemma InterleaveCons(w: string, r: string, words: seq<string>, runs: seq<string>)
    requires |words| == |runs| + 1
    ensures Interleave([w] + words, [r] + runs) == w + (r + Interleave(words, runs))
  {
    assert ([w] + words)[1..] == words && ([r] + runs)[1..] == runs;
  }

  /** Joining is interleaving with the separator in every gap. */
  lemma {:induction false} JoinInterleaves(words: seq<string>, sep: string)
    requires |words| >= 1
    ensures Join(words, sep) == Interleave(words, seq(|words| - 1, _ => sep))
    decreases |words|
  {
    if |words| > 1 {
      JoinInterleaves(words[1..], sep);
      var gaps := seq(|words| - 1, _ => sep);
      assert gaps[1..] == seq(|words| - 2, _ => sep);
    }
  }

  /** A non-empty string without white space at either end splits into non-empty words. */
  lemma {:induction false} SplitWsWordsNonEmpty(s: string)
    requires s != [] && !IsWhitespace(s[0]) && !IsWhitespace(s[|s| - 1])
    ensures forall w :: w in SplitWs(s) ==> w != []
    decreases |s|
  {
    var i := FirstWhitespace(s);
    if i < |s| {
      var rest := TrimStart(s[i..]);
      var t := s[i..];
      TrimStartSuffix(t);
      assert |rest| < |t|;
      assert t[|t| - 1] == s[|s| - 1];
      assert rest != [];
      assert rest[|rest| - 1] == s[|s| - 1];
      SplitWsWordsNonEmpty(rest);
    }
  }

  /** The number of UTF-16 code units JavaScript uses for a character: two for a character
      outside the Basic Multilingual Plane (a surrogate pair), one otherwise. */
  function Utf16Units(c: char): nat {
    if c as int >= 0x1_0000 then 2 else 1
  }

  predicate IsBmp(c: char) {
    c as int < 0x1_0000
  }

  /** `s.length` in JavaScript: the UTF-16 code units of the string, one or two per character. */
  function Utf16Length(s: string): (n: nat)
    ensures |s| <= n <= 2 * |s|
    decreases |s|
  {
    if s == [] then 0 else Utf16Units(s[0]) + Utf16Length(s[1..])
  }

  /** The code-unit length is the number of characters exactly when every character lies in the
      Basic Multilingual Plane. */
  lemma {:induction false} Utf16LengthBmp(s: string)
    ensures Utf16Length(s) == |s| <==> forall k :: 0 <= k < |s| ==> IsBmp(s[k])
    decreases |s|
  {
    if s != [] {
      Utf16LengthBmp(s[1..]);
      assert forall k :: 1 <= k < |s| ==> s[k] == s[1..][k - 1];
    }
  }

  /** The code-unit length of a concatenation is the sum of the lengths. */
  lemma {:induction false} Utf16LengthAppend(a: string, b: string)
    ensures Utf16Length(a + b) == Utf16Length(a) + Utf16Length(b)
    decreases |a|
  {
    if a != [] {
      assert (a + b)[1..] == a[1..] + b;
      Utf16LengthAppend(a[1..], b);
    } else {
      assert a + b == b;
    }
  }
}
