/** Validation of a participants CSV file (apps/web/src/utils/csv-parser.ts, `parseParticipantsCSV`).
    The tokenizer is not modelled: its output (the header fields after the header transform, the
    records keyed by header, and the tokenizer's error messages) is the input here. */
module CsvParser {
  import opened Wrappers
  import opened Text

  /** What the tokenizer hands back: `meta.fields` (absent when it found no header row), the
      records keyed by transformed header, and its error messages. */
  datatype PapaResult = PapaResult(fields: Option<seq<string>>, data: seq<map<string, string>>, errors: seq<string>)

  datatype ParsedRow = ParsedRow(row: nat, name: string, email: string, lumaId: Option<string>,
                                 valid: bool, error: Option<string>)

  datatype CsvParseResult = CsvParseResult(success: bool, rows: seq<ParsedRow>, validCount: nat,
                                           invalidCount: nat, error: Option<string>)

  /** The header transform the tokenizer applies: trimmed, then lower-cased. */
  function TransformHeader(header: string): (r: string)
    ensures r == ToLower(Trim(header))
    ensures ToLower(r) == r
  {
    ToLowerIdempotent(Trim(header));
    ToLower(Trim(header))
  }

  /** The header fields the checks look at. */
  function Headers(p: PapaResult): (hs: seq<string>)
    ensures p.fields.None? ==> hs == []
    ensures p.fields.Some? ==> |hs| == |p.fields.value|
    ensures p.fields.Some? ==> forall i :: 0 <= i < |hs| ==> hs[i] == ToLower(p.fields.value[i])
  {
    match p.fields
    case None => []
    case Some(fs) => seq(|fs|, i requires 0 <= i < |fs| => ToLower(fs[i]))
  }

  /** `row[key] || ''`: a missing cell reads as the empty string. */
  function Cell(row: map<string, string>, key: string): string {
    if key in row then row[key] else ""
  }

  /** `[^\s@]*`, scanned left to right. */
  predicate NoSpaceOrAt(s: string) {
    s == [] || (!IsWhitespace(s[0]) && s[0] != '@' && NoSpaceOrAt(s[1..]))
  }

  /** The string contains a '.', scanned left to right. */
  predicate HasDot(s: string) {
    s != [] && (s[0] == '.' || HasDot(s[1..]))
  }

  lemma {:induction false} NoSpaceOrAtAll(s: string)
    ensures NoSpaceOrAt(s) <==> forall k :: 0 <= k < |s| ==> !IsWhitespace(s[k]) && s[k] != '@'
  {
    if s != [] {
      NoSpaceOrAtAll(s[1..]);
      assert forall k :: 1 <= k < |s| ==> s[1..][k - 1] == s[k];
    }
  }

  lemma {:induction false} HasDotExists(s: string)
    ensures HasDot(s) <==> exists k :: 0 <= k < |s| && s[k] == '.'
  {
    if s != [] {
      HasDotExists(s[1..]);
      if HasDot(s[1..]) {
        var k :| 0 <= k < |s[1..]| && s[1..][k] == '.';
        assert s[k + 1] == '.';
      }
      if exists k :: 0 <= k < |s| && s[k] == '.' {
        var k :| 0 <= k < |s| && s[k] == '.';
        if k > 0 { assert s[1..][k - 1] == '.'; }
      }
    }
  }

  /** Index of the first '@', or |s| when there is none. */
  function FirstAt(s: string): (i: nat)
    ensures i <= |s|
    ensures i < |s| ==> s[i] == '@'
    ensures forall k :: 0 <= k < i ==> s[k] != '@'
  {
    if s == [] then 0 else if s[0] == '@' then 0 else 1 + FirstAt(s[1..])
  }

  /** `/^[^\s@]+@[^\s@]+\.[^\s@]+$/`. The part before the '@' holds no '@', so the '@' the
      pattern matches is the first one. A matching address has no white space, exactly one '@'
      with a character before it, and at least three characters after it. */
  predicate EmailFormat(s: string)
    ensures EmailFormat(s) ==> 0 < FirstAt(s) && FirstAt(s) + 4 <= |s|
    ensures EmailFormat(s) ==> forall k :: 0 <= k < |s| ==> !IsWhitespace(s[k])
    ensures EmailFormat(s) ==> forall k :: 0 <= k < |s| && s[k] == '@' ==> k == FirstAt(s)
  {
    var a := FirstAt(s);
    if 0 < a < |s| then
      NoSpaceOrAtAll(s[..a]);
      NoSpaceOrAtAll(s[a + 1..]);
      assert forall k :: a < k < |s| ==> s[a + 1..][k - a - 1] == s[k];
      assert forall k :: 0 <= k < a ==> s[..a][k] == s[k];
      NoSpaceOrAt(s[..a]) && DomainFormat(s[a + 1..])
    else false
  }

  /** `[^\s@]+\.[^\s@]+`: no space or '@', and a dot with a character on each side. */
  predicate DomainFormat(d: string) {
    |d| >= 3 && NoSpaceOrAt(d) && HasDot(d[1..|d| - 1])
  }

  /** `(row['luma_id'] || row['lumaid'] || '').trim() || undefined`: the first non-empty raw cell
      of the two, trimmed; empty after trimming means absent. */
  function LumaId(row: map<string, string>): (r: Option<string>)
    ensures r.Some? ==> r.value != [] && NoOuterWhitespace(r.value)
    ensures Cell(row, "luma_id") != [] ==>
      r == (if Trim(Cell(row, "luma_id")) == [] then None else Some(Trim(Cell(row, "luma_id"))))
    ensures Cell(row, "luma_id") == [] ==>
      r == (if Trim(Cell(row, "lumaid")) == [] then None else Some(Trim(Cell(row, "lumaid"))))
  {
    var raw := if Cell(row, "luma_id") != [] then Cell(row, "luma_id") else Cell(row, "lumaid");
    var t := Trim(raw);
    if t == [] then None else Some(t)
  }

  predicate NoOuterWhitespace(s: string) {
    s == [] || (!IsWhitespace(s[0]) && !IsWhitespace(s[|s| - 1]))
  }

  /** The first failed row check, in the order email present, email format, name present. */
  function RowError(email: string, name: string): (e: Option<string>)
    ensures e.None? <==> email != [] && EmailFormat(email) && name != []
  {
    if email == [] then Some("Email is required")
    else if !EmailFormat(email) then Some("Invalid email format")
    else if name == [] then Some("Name is required")
    else None
  }

  /** The parsed form of the record at position `index`. */
  function ParseRow(row: map<string, string>, index: nat): (r: ParsedRow)
    ensures r.row == index + 1 && (r.valid <==> r.error.None?)
    ensures r.valid ==> r.email != [] && EmailFormat(r.email) && r.name != []
  {
    var email := Trim(Cell(row, "email"));
    var name := Trim(Cell(row, "name"));
    var err := RowError(email, name);
    ParsedRow(index + 1, name, email, LumaId(row), err.None?, err)
  }

  /** A row is valid exactly when its trimmed email is present and well-formed and its trimmed
      name is present; otherwise the error names the first check that failed. */
  lemma ParseRowValidity(row: map<string, string>, index: nat)
    ensures var r := ParseRow(row, index);
      (r.valid <==> r.email != [] && EmailFormat(r.email) && r.name != []) &&
      (r.email == [] ==> r.error == Some("Email is required")) &&
      (r.email != [] && !EmailFormat(r.email) ==> r.error == Some("Invalid email format")) &&
      (r.email != [] && EmailFormat(r.email) && r.name == [] ==> r.error == Some("Name is required"))
    ensures var r := ParseRow(row, index);
      r.row == index + 1 && r.email == Trim(Cell(row, "email")) && r.name == Trim(Cell(row, "name")) &&
      (r.valid <==> r.error.None?)
  {
  }

  /** The number of valid rows: none exactly when no row is valid, all exactly when every row is. */
  function CountValid(rows: seq<ParsedRow>): (n: nat)
    ensures n <= |rows|
    ensures n == 0 <==> forall k :: 0 <= k < |rows| ==> !rows[k].valid
    ensures n == |rows| <==> forall k :: 0 <= k < |rows| ==> rows[k].valid
  {
    if rows == [] then 0 else CountValid(rows[..|rows| - 1]) + (if rows[|rows| - 1].valid then 1 else 0)
  }

  function Failed(message: string): CsvParseResult {
    CsvParseResult(false, [], 0, 0, Some(message))
  }

  /** `parseParticipantsCSV` after tokenizing. */
  method ParseParticipantsCsv(p: PapaResult) returns (r: CsvParseResult)
    ensures |p.errors| > 0 && |p.data| == 0 ==> r == Failed("CSV parsing error: " + p.errors[0])
    ensures !(|p.errors| > 0 && |p.data| == 0) && "email" !in Headers(p) ==>
      r == Failed("Missing required column: email")
    ensures !(|p.errors| > 0 && |p.data| == 0) && "email" in Headers(p) && "name" !in Headers(p) ==>
      r == Failed("Missing required column: name")
    ensures r.success <==> !(|p.errors| > 0 && |p.data| == 0) && "email" in Headers(p) && "name" in Headers(p)
    ensures !r.success ==> r.rows == [] && r.validCount == 0 && r.invalidCount == 0 && r.error.Some?
    ensures r.success ==> r.error.None? && |r.rows| == |p.data|
    ensures r.success ==> forall i :: 0 <= i < |p.data| ==> r.rows[i] == ParseRow(p.data[i], i)
    ensures r.success ==> r.validCount == CountValid(r.rows) && r.validCount + r.invalidCount == |r.rows|
  {
    if |p.errors| > 0 && |p.data| == 0 {
      return Failed("CSV parsing error: " + p.errors[0]);
    }
    var headers := Headers(p);
    if "email" !in headers {
      return Failed("Missing required column: email");
    }
    if "name" !in headers {
      return Failed("Missing required column: name");
    }
    var rows, validCount, invalidCount := ParseRows(p.data, ParseRow);
    r := CsvParseResult(true, rows, validCount, invalidCount, None);
  }

  /** The `forEach` over the records: each record is turned into a row by `parse` (given its
      position), and counted as valid or invalid. */
  method ParseRows(data: seq<map<string, string>>, parse: (map<string, string>, nat) -> ParsedRow)
    returns (rows: seq<ParsedRow>, validCount: nat, invalidCount: nat)
    ensures |rows| == |data|
    ensures forall i :: 0 <= i < |data| ==> rows[i] == parse(data[i], i)
    ensures validCount == CountValid(rows) && validCount + invalidCount == |rows|
  {
    rows := [];
    validCount, invalidCount := 0, 0;
    for index := 0 to |data|
      invariant |rows| == index
      invariant forall i :: 0 <= i < index ==> rows[i] == parse(data[i], i)
      invariant validCount == CountValid(rows) && validCount + invalidCount == index
    {
      var parsed := parse(data[index], index);
      if parsed.valid {
        validCount := validCount + 1;
      } else {
        invalidCount := invalidCount + 1;
      }
      assert (rows + [parsed])[..|rows|] == rows;
      assert CountValid(rows + [parsed]) == CountValid(rows) + (if parsed.valid then 1 else 0);
      rows := rows + [parsed];
    }
  }

  /** A raw header is recognised whatever its case and surrounding white space. */
  lemma HeaderRecognised(raw: string, name: string)
    requires name == ToLower(name)
    ensures TransformHeader(raw) == name ==> name in Headers(PapaResult(Some([TransformHeader(raw)]), [], []))
  {
    assert Headers(PapaResult(Some([TransformHeader(raw)]), [], []))[0] == TransformHeader(raw);
  }

  /** The format check accepts the usual address shape. */
  lemma EmailFormatAccepts()
    ensures EmailFormat("a@b.co")
  {
    assert "a@b.co"[1] == '@';
    assert "a@b.co"[2..][1] == '.';
  }

  predicate OnlyAtAt(s: string, a: nat) {
    forall k :: 0 <= k < |s| && s[k] == '@' ==> k == a
  }

  /** An accepted address has no white space and exactly one '@', with at least one character
      before it and at least three after it. */
  lemma EmailFormatShape(s: string)
    requires EmailFormat(s)
    ensures forall k :: 0 <= k < |s| ==> !IsWhitespace(s[k])
    ensures exists a :: 0 < a && a + 3 < |s| && s[a] == '@' && OnlyAtAt(s, a)
  {
    var a := FirstAt(s);
    NoSpaceOrAtAll(s[..a]);
    NoSpaceOrAtAll(s[a + 1..]);
    forall k | 0 <= k < |s| ensures !IsWhitespace(s[k]) && (s[k] == '@' ==> k == a) {
      if k < a {
        assert s[..a][k] == s[k];
      } else if k > a {
        assert s[a + 1..][k - a - 1] == s[k];
      }
    }
  }
}
