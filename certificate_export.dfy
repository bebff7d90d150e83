/** The file name under which a certificate PDF is saved (apps/web/src/utils/certificate-export.ts).
    The PNG rendering and the PDF writer are not part of this model. */
module CertificateExport {
  import opened Text

  predicate IsAsciiAlnum(c: char) {
    'a' <= c <= 'z' || 'A' <= c <= 'Z' || '0' <= c <= '9'
  }

  /** The characters a sanitised name may contain. */
  predicate IsFileNameChar(c: char) {
    'a' <= c <= 'z' || '0' <= c <= '9' || c == '-'
  }

  /** What the regex does to one character. Without the `u` flag the pattern matches UTF-16 code
      units, so a character outside the Basic Multilingual Plane, being two units, becomes "--". */
  function SanitizeChar(c: char): string {
    if IsAsciiAlnum(c) then [ToLowerChar(c)] else if IsBmp(c) then "-" else "--"
  }

  /** `filename.replace(/[^a-z0-9]/gi, '-').toLowerCase()`: every code unit that is not an ASCII
      letter or digit becomes '-', and the letters are lower-cased. */
  function Sanitize(name: string): (r: string)
    ensures |name| <= |r| <= 2 * |name|
    decreases |name|
  {
    if name == [] then [] else SanitizeChar(name[0]) + Sanitize(name[1..])
  }

  /** The name under which the PDF is saved: the sanitised name between "certificate-" and ".pdf". */
  function PdfFileName(name: string): (r: string)
    ensures |r| == Utf16Length(name) + 16
    ensures r[..12] == "certificate-" && r[|r| - 4..] == ".pdf" && r[12..|r| - 4] == Sanitize(name)
  {
    SanitizeLength(name);
    "certificate-" + Sanitize(name) + ".pdf"
  }

  /** A sanitised name has one character per code unit of the input. */
  lemma {:induction false} SanitizeLength(name: string)
    ensures |Sanitize(name)| == Utf16Length(name)
    decreases |name|
  {
    if name != [] {
      SanitizeLength(name[1..]);
    }
  }

  /** A sanitised name holds only `[a-z0-9-]`. */
  lemma {:induction false} SanitizeCharset(name: string)
    ensures forall k :: 0 <= k < |Sanitize(name)| ==> IsFileNameChar(Sanitize(name)[k])
    decreases |name|
  {
    if name != [] {
      SanitizeCharset(name[1..]);
    }
  }

  /** Sanitising distributes over concatenation. */
  lemma {:induction false} SanitizeAppend(a: string, b: string)
    ensures Sanitize(a + b) == Sanitize(a) + Sanitize(b)
    decreases |a|
  {
    if a == [] {
      assert a + b == b;
    } else {
      assert (a + b)[1..] == a[1..] + b;
      SanitizeAppend(a[1..], b);
    }
  }

  /** A name made of `[a-z0-9-]` is its own sanitisation. */
  lemma {:induction false} SanitizeFileName(s: string)
    requires forall k :: 0 <= k < |s| ==> IsFileNameChar(s[k])
    ensures Sanitize(s) == s
    decreases |s|
  {
    if s != [] {
      SanitizeFileName(s[1..]);
    }
  }

  /** Sanitising a sanitised name changes nothing. */
  lemma SanitizeIdempotent(name: string)
    ensures Sanitize(Sanitize(name)) == Sanitize(name)
  {
    SanitizeCharset(name);
    SanitizeFileName(Sanitize(name));
  }

  /** Each character is replaced in place: letters and digits survive lower-cased, any other
      character becomes one '-' per code unit. Inside the Basic Multilingual Plane the result is
      therefore the input with each character replaced by one. */
  lemma SanitizeKeepsAlnum(name: string, k: nat)
    requires k < |name|
    ensures Sanitize(name) == Sanitize(name[..k]) + SanitizeChar(name[k]) + Sanitize(name[k + 1..])
    ensures IsAsciiAlnum(name[k]) ==> SanitizeChar(name[k]) == [ToLowerChar(name[k])]
    ensures !IsAsciiAlnum(name[k]) ==> SanitizeChar(name[k]) == if IsBmp(name[k]) then "-" else "--"
  {
    var before, after := name[..k], name[k + 1..];
    AroundIndex(name, k);
    SanitizeSplit(name, before, name[k], after);
    SanitizeCharShape(name[k]);
  }

  /** One character's replacement: itself lower-cased, or one '-' per code unit. */
  lemma SanitizeCharShape(c: char)
    ensures IsAsciiAlnum(c) ==> SanitizeChar(c) == [ToLowerChar(c)]
    ensures !IsAsciiAlnum(c) ==> SanitizeChar(c) == if IsBmp(c) then "-" else "--"
    ensures |SanitizeChar(c)| == Utf16Units(c)
  {
  }

  /** Sanitising a name around one of its characters. */
  lemma SanitizeSplit(name: string, a: string, c: char, b: string)
    requires name == a + ([c] + b)
    ensures Sanitize(name) == Sanitize(a) + SanitizeChar(c) + Sanitize(b)
  {
    SanitizeAppend(a, [c] + b);
    SanitizeCons(c, b);
  }

  /** A string is what comes before position k, the character there, and what follows. */
  lemma AroundIndex(s: string, k: nat)
    requires k < |s|
    ensures s == s[..k] + ([s[k]] + s[k + 1..])
  {
  }

  /** Sanitising a name one character at a time. */
  lemma SanitizeCons(c: char, rest: string)
    ensures Sanitize([c] + rest) == SanitizeChar(c) + Sanitize(rest)
  {
    assert ([c] + rest)[1..] == rest;
  }

  /** The emoji U+1F600 is two code units and becomes two dashes. */
  lemma EmojiBecomesTwoDashes()
    ensures Sanitize("a\U{1F600}") == "a--"
  {
  }

  /** A name inside the Basic Multilingual Plane keeps its length, character for character. */
  lemma {:induction false} SanitizeBmp(name: string)
    requires forall k :: 0 <= k < |name| ==> IsBmp(name[k])
    ensures |Sanitize(name)| == |name|
    ensures forall k :: 0 <= k < |name| ==>
      Sanitize(name)[k] == (if IsAsciiAlnum(name[k]) then ToLowerChar(name[k]) else '-')
    decreases |name|
  {
    if name != [] {
      SanitizeBmp(name[1..]);
    }
  }
}
