/** The certificate name rules (packages/core/src/utils/certificate-name.ts): validation of the
    name a user saves, and the two-line split used when a name is too wide for one line.
    JavaScript measures strings in UTF-16 code units, so a character outside the Basic
    Multilingual Plane counts twice (`Text.Utf16Length`). */
module CertificateName {
  import opened Text

  const MaxNameLength: nat := 100

  datatype NameCheck = NameOk | NameRejected(error: string)

  /** `validateCertificateName`: the trimmed name must be non-empty and at most 100 code units. */
  function ValidateCertificateName(name: string): (r: NameCheck)
    ensures r.NameOk? <==> Trim(name) != [] && Utf16Length(Trim(name)) <= MaxNameLength
    ensures Trim(name) == [] ==> r == NameRejected("Name cannot be empty")
    ensures Trim(name) != [] && Utf16Length(Trim(name)) > MaxNameLength ==>
      r == NameRejected("Name must be 100 characters or less")
  {
    var trimmed := Trim(name);
    if trimmed == [] then NameRejected("Name cannot be empty")
    else if Utf16Length(trimmed) > MaxNameLength then NameRejected("Name must be 100 characters or less")
    else NameOk
  }

  /** A valid name holds between 1 and 100 characters. */
  lemma ValidNameLength(name: string)
    requires ValidateCertificateName(name).NameOk?
    ensures 1 <= |Trim(name)| <= MaxNameLength
  {
  }

  /** Fifty-one emoji are only 51 characters but 102 code units, and are refused. */
  lemma AstralNameRefused()
    ensures var name := seq(51, _ => '\U{1F600}');
      |name| <= MaxNameLength && Utf16Length(name) == 102 &&
      ValidateCertificateName(name) == NameRejected("Name must be 100 characters or less")
  {
    var name := seq(51, _ => '\U{1F600}');
    assert Trim(name) == name;
    AllAstral(name);
  }

  lemma {:induction false} AllAstral(s: string)
    requires forall k :: 0 <= k < |s| ==> !IsBmp(s[k])
    ensures Utf16Length(s) == 2 * |s|
    decreases |s|
  {
    if s != [] {
      AllAstral(s[1..]);
    }
  }

  /** The number of leading characters of `s` that fit in `units` code units: the cut that
      `slice(0, units)` makes when it falls between two characters. */
  function CutIndex(s: string, units: nat): (i: nat)
    ensures i <= |s|
    decreases |s|
  {
    if s == [] || Utf16Units(s[0]) > units then 0
    else CutIndex(s[1..], units - Utf16Units(s[0])) + 1
  }

  /** The cut keeps the longest prefix that fits: it holds at most `units` code units, and one
      more character would exceed them. */
  lemma {:induction false} CutIndexFits(s: string, units: nat)
    ensures var i := CutIndex(s, units);
      Utf16Length(s[..i]) <= units && (i < |s| ==> Utf16Length(s[..i + 1]) > units)
    decreases |s|
  {
    if s == [] || Utf16Units(s[0]) > units {
      assert s != [] ==> s[..1] == [s[0]];
    } else {
      var rest := units - Utf16Units(s[0]);
      CutIndexFits(s[1..], rest);
      var j := CutIndex(s[1..], rest);
      assert s[..j + 1] == [s[0]] + s[1..][..j];
      Utf16LengthAppend([s[0]], s[1..][..j]);
      if j < |s[1..]| {
        assert s[..j + 2] == [s[0]] + s[1..][..j + 1];
        Utf16LengthAppend([s[0]], s[1..][..j + 1]);
      }
    }
  }

  /** `splitNameIntoTwoLines`: the trimmed name is split at white-space runs; a single word is cut
      at half the name's code-unit length, otherwise the first half of the words (rounded down)
      goes on the first line. */
  function SplitNameIntoTwoLines(name: string): (lines: (string, string))
    ensures |SplitWs(Trim(name))| == 1 ==> lines.0 + lines.1 == name
  {
    var words := SplitWs(Trim(name));
    if |words| == 1 then
      var mid := CutIndex(name, Utf16Length(name) / 2);
      assert name[..mid] + name[mid..] == name;
      (name[..mid], name[mid..])
    else
      var mid := |words| / 2;
      (Join(words[..mid], " "), Join(words[mid..], " "))
  }

  /** Longer prefixes hold at least as many code units. */
  lemma PrefixUnitsGrow(s: string, a: nat, b: nat)
    requires a <= b <= |s|
    ensures Utf16Length(s[..a]) <= Utf16Length(s[..b])
  {
    assert s[..b] == s[..a] + s[a..b];
    Utf16LengthAppend(s[..a], s[a..b]);
  }

  /** A cut inside the string stops at most one unit short of the requested point, and stops
      exactly there whenever a character boundary lies there. */
  lemma CutNearPoint(s: string, units: nat)
    requires units <= Utf16Length(s)
    ensures var i := CutIndex(s, units);
      Utf16Length(s[..i]) <= units <= Utf16Length(s[..i]) + 1 &&
      ((exists j :: 0 <= j <= |s| && Utf16Length(s[..j]) == units) ==> Utf16Length(s[..i]) == units)
  {
    CutWithinOne(s, units);
    forall j | 0 <= j <= |s| && Utf16Length(s[..j]) == units
      ensures Utf16Length(s[..CutIndex(s, units)]) == units
    {
      CutAtBoundary(s, units, j);
    }
  }

  lemma CutWithinOne(s: string, units: nat)
    requires units <= Utf16Length(s)
    ensures var i := CutIndex(s, units);
      Utf16Length(s[..i]) <= units <= Utf16Length(s[..i]) + 1
  {
    var i := CutIndex(s, units);
    CutIndexFits(s, units);
    if i < |s| {
      assert s[..i + 1] == s[..i] + [s[i]];
      Utf16LengthAppend(s[..i], [s[i]]);
    } else {
      assert s[..i] == s;
    }
  }

  lemma CutAtBoundary(s: string, units: nat, j: nat)
    requires j <= |s| && Utf16Length(s[..j]) == units
    ensures Utf16Length(s[..CutIndex(s, units)]) == units
  {
    var i := CutIndex(s, units);
    CutIndexFits(s, units);
    if j <= i {
      PrefixUnitsGrow(s, j, i);
    } else {
      PrefixUnitsGrow(s, i + 1, j);
    }
  }

  /** Inside the Basic Multilingual Plane a cut at n units is a cut after n characters. */
  lemma CutBmp(s: string, units: nat)
    requires units <= |s| && forall k :: 0 <= k < |s| ==> IsBmp(s[k])
    ensures CutIndex(s, units) == units
  {
    var i := CutIndex(s, units);
    CutIndexFits(s, units);
    Utf16LengthBmp(s[..i]);
    if i < |s| {
      Utf16LengthBmp(s[..i + 1]);
    }
  }

  /** A single word is cut so that the halves put back together give the name. The first line
      holds half the code units, rounded down, whenever some character boundary lies there, as
      `slice` does; it is one unit short only where that point falls inside a surrogate pair. A
      name inside the Basic Multilingual Plane is cut at half its length. */
  lemma SingleWordSplit(name: string)
    requires |SplitWs(Trim(name))| == 1
    ensures var (first, second) := SplitNameIntoTwoLines(name);
      var half := Utf16Length(name) / 2;
      first + second == name && first == name[..|first|] &&
      Utf16Length(first) <= half <= Utf16Length(first) + 1 &&
      ((exists j :: 0 <= j <= |name| && Utf16Length(name[..j]) == half) ==> Utf16Length(first) == half) &&
      ((forall k :: 0 <= k < |name| ==> IsBmp(name[k])) ==> |first| == |name| / 2)
  {
    var half := Utf16Length(name) / 2;
    var i := CutIndex(name, half);
    assert SplitNameIntoTwoLines(name).0 == name[..i];
    CutNearPoint(name, half);
    if forall k :: 0 <= k < |name| ==> IsBmp(name[k]) {
      Utf16LengthBmp(name);
      CutBmp(name, half);
    }
  }

  /** With k >= 2 words the first line holds the first floor(k/2) words, the second the others,
      and the two lines joined by a space are the words joined by single spaces. */
  lemma MultiWordSplit(name: string)
    requires |SplitWs(Trim(name))| >= 2
    ensures var words := SplitWs(Trim(name));
      var (first, second) := SplitNameIntoTwoLines(name);
      first == Join(words[..|words| / 2], " ") && second == Join(words[|words| / 2..], " ") &&
      first + " " + second == Join(words, " ")
  {
    var words := SplitWs(Trim(name));
    var mid := |words| / 2;
    assert words == words[..mid] + words[mid..];
    JoinAppend(words[..mid], words[mid..], " ");
  }

  /** The words are the trimmed name's own: it is those words with its white-space runs between
      them, and the two lines are the same words with every run collapsed to one space. */
  lemma MultiWordCollapsesRuns(name: string)
    requires |SplitWs(Trim(name))| >= 2
    ensures var words, runs := SplitWs(Trim(name)), WsRuns(Trim(name));
      var (first, second) := SplitNameIntoTwoLines(name);
      |runs| == |words| - 1 && (forall j :: 0 <= j < |runs| ==> IsWsRun(runs[j])) &&
      Interleave(words, runs) == Trim(name) &&
      first + " " + second == Interleave(words, seq(|runs|, _ => " "))
  {
    var words := SplitWs(Trim(name));
    MultiWordSplit(name);
    SplitWsRebuilds(Trim(name));
    JoinInterleaves(words, " ");
  }

  /** The words of a valid name are non-empty, so neither line of a multi-word split starts
      with an empty word. */
  lemma ValidNameWordsNonEmpty(name: string)
    requires ValidateCertificateName(name).NameOk?
    ensures forall w :: w in SplitWs(Trim(name)) ==> w != []
  {
    SplitWsWordsNonEmpty(Trim(name));
  }
}
