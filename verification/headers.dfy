/**
 * The header section of a quasi-HTTP entity (kabomu/protocol_utils_internal.py,
 * encode_quasi_http_headers to read_quasi_http_headers): a CSV document whose
 * first row is the four-field request or status line and whose other rows are a
 * header name followed by its values, framed as one "hdrs" record whose size is
 * capped.
 */
module Headers {
  import opened Wrappers
  import opened Errors
  import opened Bytes
  import opened Numbers
  import Csv
  import opened Tlv
  import opened Streams

  /**
   * The header-section cap used when none (or a non-positive one) is configured.
   * quasi_http_utils.py, which defines it, is not part of this model; this is the
   * value kabomu publishes.
   */
  const DEFAULT_MAX_HEADERS_SIZE: int := 8192

  /** A value of the request or status line as the caller supplies it. */
  datatype LineField = Absent | Text(text: string) | Number(number: int)

  /** A header map in insertion order: names with their value lists. */
  type HeaderList = seq<(string, seq<string>)>

  function LineKind(isResponse: bool): string {
    if isResponse then "status" else "request"
  }

  // ---------------------------------------------------------------- the line fields

  /**
   * How a line value is written: absent as "", text as itself, a number in
   * decimal. Zero is written "0" (see FieldTextAsWritten for the code as written).
   */
  function FieldText(v: LineField): string {
    match v
    case Absent => ""
    case Text(s) => s
    case Number(n) => IntToString(n)
  }

  /**
   * `str(v) if v else ""` as written: every falsy value, the number 0 included,
   * becomes "".
   */
  function FieldTextAsWritten(v: LineField): string {
    match v
    case Absent => ""
    case Text(s) => s
    case Number(n) => if n == 0 then "" else IntToString(n)
  }

  /** Every declared content length written by FieldText parses back to itself. */
  lemma FieldTextReadsBack(n: int)
    requires INT48_MIN <= n <= INT48_MAX
    ensures ParseInt48(FieldText(Number(n))) == Ok(n)
  {
    ParseInt48RoundTrip(n);
  }

  /**
   * The code as written loses a zero content length: it is written as "", which
   * does not parse, so every entity declaring length 0 is unreadable. Only 0 is
   * affected.
   */
  lemma ZeroLengthUnreadableAsWritten(v: LineField)
    ensures v != Number(0) ==> FieldTextAsWritten(v) == FieldText(v)
    ensures ParseInt48(FieldTextAsWritten(Number(0))).Err?
    ensures ParseInt48(FieldText(Number(0))) == Ok(0)
  {
    ParseRejectsNonNumeric("");
    ParseInt48RoundTrip(0);
  }

  // ---------------------------------------------------------------- validation

  /** A visible ASCII character, or a space where spaces are allowed. */
  predicate IsPrintableAscii(c: char, allowSpace: bool) {
    ('!' <= c <= '~') || (allowSpace && c == ' ')
  }

  /** contains_only_printable_ascii_chars. */
  predicate ContainsOnlyPrintableAsciiChars(v: string, allowSpace: bool) {
    forall i :: 0 <= i < |v| ==> IsPrintableAscii(v[i], allowSpace)
  }

  predicate IsHeaderNameChar(c: char) {
    ('a' <= c <= 'z') || ('A' <= c <= 'Z') || ('0' <= c <= '9') || c == '-'
  }

  /** contains_only_header_name_chars: English letters, digits and hyphens. */
  predicate ContainsOnlyHeaderNameChars(v: string) {
    forall i :: 0 <= i < |v| ==> IsHeaderNameChar(v[i])
  }

  /** Only the status message (third field of a status line) may hold spaces. */
  predicate SpecialLineValid(isResponse: bool, line: Csv.Row) {
    forall i :: 0 <= i < |line| ==> ContainsOnlyPrintableAsciiChars(line[i], isResponse && i == 2)
  }

  predicate HeaderRowValid(row: Csv.Row) {
    |row| > 0 && ContainsOnlyHeaderNameChars(row[0])
    && forall j :: 1 <= j < |row| ==> ContainsOnlyPrintableAsciiChars(row[j], true)
  }

  predicate SectionValid(isResponse: bool, rows: seq<Csv.Row>) {
    (|rows| > 0 ==> SpecialLineValid(isResponse, rows[0]))
    && forall i :: 1 <= i < |rows| ==> HeaderRowValid(rows[i])
  }

  const BAD_STATUS_LINE_FIELD: string := "quasi http status line field contains spaces, newlines or non-printable ASCII characters"
  const BAD_REQUEST_LINE_FIELD: string := "quasi http request line field contains spaces, newlines or non-printable ASCII characters"
  const BAD_HEADER_NAME: string := "quasi http header name contains characters other than hyphen and English alphabets"
  const BAD_HEADER_VALUE: string := "quasi http header value contains newlines or non-printable ASCII characters"

  /** One header row: the name is checked before the values. */
  function ValidateHeaderRow(row: Csv.Row): (r: ErrorOr<()>)
    ensures r.Ok? <==> HeaderRowValid(row)
    ensures r.Err? ==> r.error.QuasiHttp? && r.error.reason == ProtocolViolation
  {
    if |row| == 0 || !ContainsOnlyHeaderNameChars(row[0]) then
      Err(Violation(BAD_HEADER_NAME))
    else if !(forall j :: 1 <= j < |row| ==> ContainsOnlyPrintableAsciiChars(row[j], true)) then
      Err(Violation(BAD_HEADER_VALUE))
    else
      Ok(())
  }

  /** The header rows in order, stopping at the first invalid one. */
  function ValidateHeaderRows(rows: seq<Csv.Row>): (r: ErrorOr<()>)
    ensures r.Ok? <==> forall i :: 0 <= i < |rows| ==> HeaderRowValid(rows[i])
    ensures r.Err? ==> r.error.QuasiHttp? && r.error.reason == ProtocolViolation
    decreases |rows|
  {
    if |rows| == 0 then
      Ok(())
    else
      var first :- ValidateHeaderRow(rows[0]);
      var rest :- ValidateHeaderRows(rows[1..]);
      assert forall i :: 1 <= i < |rows| ==> rows[i] == rows[1..][i - 1];
      Ok(())
  }

  /**
   * validate_http_header_section as its tests fix it (the function body in the
   * source is empty): the line first, then each header row, name before values.
   */
  function Validate(isResponse: bool, rows: seq<Csv.Row>): (r: ErrorOr<()>)
    ensures r.Ok? <==> SectionValid(isResponse, rows)
    ensures r.Err? ==> r.error.QuasiHttp? && r.error.reason == ProtocolViolation
    ensures |rows| > 0 && !SpecialLineValid(isResponse, rows[0]) ==>
      r == Err(Violation(if isResponse then BAD_STATUS_LINE_FIELD else BAD_REQUEST_LINE_FIELD))
  {
    if |rows| == 0 then
      Ok(())
    else if !SpecialLineValid(isResponse, rows[0]) then
      Err(Violation(if isResponse then BAD_STATUS_LINE_FIELD else BAD_REQUEST_LINE_FIELD))
    else
      var ok :- ValidateHeaderRows(rows[1..]);
      assert forall i :: 1 <= i < |rows| ==> rows[i] == rows[1..][i - 1];
      Ok(())
  }

  // ---------------------------------------------------------------- encoding

  /**
   * The rows of the header map: one per header with a non-empty value list,
   * name first. An empty name is refused even when its list is empty; an empty
   * value is refused.
   */
  function HeaderRows(hs: HeaderList): (r: ErrorOr<seq<Csv.Row>>)
    ensures r.Ok? <==> forall i :: 0 <= i < |hs| ==> HeaderAccepted(hs[i])
    ensures r.Ok? ==> forall i :: 0 <= i < |r.value| ==> |r.value[i]| >= 2
    ensures r.Err? ==> r.error.QuasiHttp? && r.error.reason == ProtocolViolation
    decreases |hs|
  {
    if |hs| == 0 then
      Ok([])
    else
      var name := hs[0].0;
      var values := hs[0].1;
      if |name| == 0 then
        Err(Violation("quasi http header name cannot be empty"))
      else if |values| == 0 then
        HeaderRows(hs[1..])
      else if exists j :: 0 <= j < |values| && |values[j]| == 0 then
        Err(Violation("quasi http header value cannot be empty"))
      else
        var rest :- HeaderRows(hs[1..]);
        Ok([[name] + values] + rest)
  }

  /** A header the encoder accepts: a non-empty name, and no empty value. */
  predicate HeaderAccepted(h: (string, seq<string>)) {
    |h.0| > 0 && forall j :: 0 <= j < |h.1| ==> |h.1[j]| > 0
  }

  /** The line as written: each value through FieldText. */
  function LineTexts(line: seq<LineField>): (r: Csv.Row)
    ensures |r| == |line|
  {
    seq(|line|, i requires 0 <= i < |line| => FieldText(line[i]))
  }

  /** The rows encode_quasi_http_headers hands to the CSV writer. */
  function SectionRows(line: seq<LineField>, hs: HeaderList): (r: ErrorOr<seq<Csv.Row>>)
    ensures r.Ok? ==> |r.value| > 0 && |r.value[0]| == |line|
  {
    var rows :- HeaderRows(hs);
    Ok([LineTexts(line)] + rows)
  }

  predicate AllAscii(rows: seq<Csv.Row>) {
    forall i, j :: 0 <= i < |rows| && 0 <= j < |rows[i]| ==> IsAscii(rows[i][j])
  }

  /** A valid section holds only printable ASCII. */
  lemma ValidIsAscii(isResponse: bool, rows: seq<Csv.Row>)
    requires SectionValid(isResponse, rows)
    ensures AllAscii(rows)
  {
    forall i, j | 0 <= i < |rows| && 0 <= j < |rows[i]|
      ensures IsAscii(rows[i][j])
    {
      if i == 0 {
        assert ContainsOnlyPrintableAsciiChars(rows[0][j], isResponse && j == 2);
      } else if j == 0 {
        assert ContainsOnlyHeaderNameChars(rows[i][0]);
      } else {
        assert ContainsOnlyPrintableAsciiChars(rows[i][j], true);
      }
    }
  }

  lemma {:induction false} EscapeIsAscii(f: string)
    requires IsAscii(f)
    ensures IsAscii(Csv.Escape(f))
    decreases |f|
  {
    if |f| > 0 {
      EscapeIsAscii(f[1..]);
    }
  }

  lemma {:induction false} JoinIsAscii(r: Csv.Row)
    requires forall j :: 0 <= j < |r| ==> IsAscii(r[j])
    ensures IsAscii(Csv.JoinFields(r))
    decreases |r|
  {
    if |r| > 0 {
      EscapeIsAscii(r[0]);
      JoinIsAscii(r[1..]);
    }
  }

  /** The CSV text of ASCII rows is ASCII, so it converts to bytes one for one. */
  lemma {:induction false} EncodeIsAscii(rows: seq<Csv.Row>)
    requires AllAscii(rows)
    ensures IsAscii(Csv.Encode(rows))
    decreases |rows|
  {
    if |rows| > 0 {
      JoinIsAscii(rows[0]);
      EncodeIsAscii(rows[1..]);
    }
  }

  /** The validated rows as CSV bytes, which the CSV reader reads back as those rows. */
  function EncodeSection(isResponse: bool, rows: seq<Csv.Row>): (r: ErrorOr<seq<byte>>)
    ensures r.Ok? <==> SectionValid(isResponse, rows)
    ensures r.Ok? ==> Csv.Parse(BytesToString(r.value)) == Ok(rows)
  {
    var ok :- Validate(isResponse, rows);
    ValidIsAscii(isResponse, rows);
    EncodeIsAscii(rows);
    AsciiRoundTrip(Csv.Encode(rows));
    Csv.RoundTrip(rows);
    Ok(StringToBytes(Csv.Encode(rows)))
  }

  /**
   * encode_quasi_http_headers: the CSV bytes of the line and the header rows.
   * An empty line is an argument error; header and validation errors are
   * protocol violations.
   */
  function EncodeHeaders(isResponse: bool, line: seq<LineField>, hs: HeaderList): (r: ErrorOr<seq<byte>>)
    ensures |line| == 0 ==> r == Err(IllegalArgument("req_or_status_line argument is null"))
    ensures r.Ok? <==> |line| > 0 && SectionRows(line, hs).Ok? && SectionValid(isResponse, SectionRows(line, hs).value)
    ensures r.Ok? ==> Csv.Parse(BytesToString(r.value)) == Ok(SectionRows(line, hs).value)
  {
    if |line| == 0 then
      Err(IllegalArgument("req_or_status_line argument is null"))
    else
      var rows :- SectionRows(line, hs);
      EncodeSection(isResponse, rows)
  }

  /**
   * The header rows as protocol_utils_internal.py:58-64 builds them: the row
   * collects the values only, so the header's name never reaches the wire.
   * Each row is the corrected row less its first field.
   */
  function HeaderRowsAsWritten(hs: HeaderList): (r: ErrorOr<seq<Csv.Row>>)
    ensures r.Ok? <==> HeaderRows(hs).Ok?
    ensures r.Ok? ==> |r.value| == |HeaderRows(hs).value|
    ensures r.Ok? ==> forall i :: 0 <= i < |r.value| ==> r.value[i] == HeaderRows(hs).value[i][1..]
    decreases |hs|
  {
    if |hs| == 0 then
      Ok([])
    else
      var name := hs[0].0;
      var values := hs[0].1;
      if |name| == 0 then
        Err(Violation("quasi http header name cannot be empty"))
      else if |values| == 0 then
        HeaderRowsAsWritten(hs[1..])
      else if exists j :: 0 <= j < |values| && |values[j]| == 0 then
        Err(Violation("quasi http header value cannot be empty"))
      else
        var rest :- HeaderRowsAsWritten(hs[1..]);
        assert ([name] + values)[1..] == values;
        Ok([values] + rest)
  }

  /** encode_quasi_http_headers as written: the line, then the name-less header rows. */
  function EncodeHeadersAsWritten(isResponse: bool, line: seq<LineField>, hs: HeaderList): (r: ErrorOr<seq<byte>>)
    ensures |line| == 0 ==> r == Err(IllegalArgument("req_or_status_line argument is null"))
    ensures r.Ok? ==> HeaderRowsAsWritten(hs).Ok?
    ensures r.Ok? ==> Csv.Parse(BytesToString(r.value)) == Ok([LineTexts(line)] + HeaderRowsAsWritten(hs).value)
  {
    if |line| == 0 then
      Err(IllegalArgument("req_or_status_line argument is null"))
    else
      var rows :- HeaderRowsAsWritten(hs);
      EncodeSection(isResponse, [LineTexts(line)] + rows)
  }

  // ---------------------------------------------------------------- decoding

  function LowerChar(c: char): char {
    if 'A' <= c <= 'Z' then (c as int + 32) as char else c
  }

  /** str.lower() on ASCII letters; other characters are kept. */
  function Lower(s: string): (t: string)
    ensures |t| == |s|
    ensures forall i :: 0 <= i < |s| ==> t[i] == LowerChar(s[i])
  {
    seq(|s|, i requires 0 <= i < |s| => LowerChar(s[i]))
  }

  function Lookup(hs: HeaderList, name: string): (r: Option<seq<string>>)
    decreases |hs|
  {
    if |hs| == 0 then None else if hs[0].0 == name then Some(hs[0].1) else Lookup(hs[1..], name)
  }

  predicate UniqueNames(hs: HeaderList) {
    forall i, j :: 0 <= i < j < |hs| ==> hs[i].0 != hs[j].0
  }

  /** The values under `name` extended by `values`, or a new entry at the end. */
  function Extend(hs: HeaderList, name: string, values: seq<string>): (r: HeaderList)
    ensures |r| == |hs| || |r| == |hs| + 1
    ensures forall i :: 0 <= i < |hs| ==> r[i].0 == hs[i].0
    ensures |r| == |hs| + 1 ==> r[|hs|].0 == name && forall i :: 0 <= i < |hs| ==> hs[i].0 != name
    decreases |hs|
  {
    if |hs| == 0 then [(name, values)]
    else if hs[0].0 == name then [(name, hs[0].1 + values)] + hs[1..]
    else [hs[0]] + Extend(hs[1..], name, values)
  }

  /** The header rows merged into the map: short rows skipped, names lower-cased, repeated names accumulated. */
  function MergeRows(acc: HeaderList, rows: seq<Csv.Row>): (r: HeaderList)
    decreases |rows|
  {
    if |rows| == 0 then acc
    else if |rows[0]| < 2 then MergeRows(acc, rows[1..])
    else MergeRows(Extend(acc, Lower(rows[0][0]), rows[0][1..]), rows[1..])
  }

  /** Reference definition: all values of the rows under a name, in row order. */
  function ValuesFor(rows: seq<Csv.Row>, name: string): seq<string>
    decreases |rows|
  {
    if |rows| == 0 then []
    else (if |rows[0]| >= 2 && Lower(rows[0][0]) == name then rows[0][1..] else []) + ValuesFor(rows[1..], name)
  }

  /** Whether some row that is not skipped carries the name. */
  predicate Mentions(rows: seq<Csv.Row>, name: string) {
    exists i :: 0 <= i < |rows| && |rows[i]| >= 2 && Lower(rows[i][0]) == name
  }

  /**
   * decode_quasi_http_headers: the line (the first row, at least four fields) and
   * the merged header map.
   */
  function DecodeHeaders(isResponse: bool, buffer: seq<byte>): (r: ErrorOr<(Csv.Row, HeaderList)>)
    ensures r.Err? ==> r.error.QuasiHttp? && r.error.reason == ProtocolViolation
    ensures var p := Csv.Parse(BytesToString(buffer));
      r.Ok? <==> p.Ok? && |p.value| > 0 && |p.value[0]| >= 4
    ensures r.Ok? ==> r.value.0 == Csv.Parse(BytesToString(buffer)).value[0]
  {
    match Csv.Parse(BytesToString(buffer))
    case Err(e) =>
      Err(QuasiHttp(ProtocolViolation, "invalid quasi http headers", Some(Foreign(e))))
    case Ok(rows) =>
      if |rows| == 0 then
        Err(Violation("invalid quasi http headers"))
      else if |rows[0]| < 4 then
        Err(Violation("invalid quasi http " + LineKind(isResponse) + " line"))
      else
        Ok((rows[0], MergeRows([], rows[1..])))
  }

  // ---------------------------------------------------------------- framing

  /** An absent, zero or negative cap means the default. */
  function EffectiveMaxHeadersSize(maxHeadersSize: Option<int>): (m: int)
    ensures m > 0
    ensures maxHeadersSize.Some? && maxHeadersSize.value > 0 ==> m == maxHeadersSize.value
    ensures !(maxHeadersSize.Some? && maxHeadersSize.value > 0) ==> m == DEFAULT_MAX_HEADERS_SIZE
  {
    match maxHeadersSize
    case Some(m) => if m > 0 then m else DEFAULT_MAX_HEADERS_SIZE
    case None => DEFAULT_MAX_HEADERS_SIZE
  }

  function SizeExceeded(size: int, max: int): Error {
    QuasiHttp(MessageLengthLimitExceeded,
      "quasi http headers exceed max size (" + IntToString(size) + " > " + IntToString(max) + ")", None)
  }

  /**
   * write_quasi_http_headers: the "hdrs" record prefix, then the encoded section;
   * a section larger than the cap is refused before anything is written.
   */
  function WriteHeaders(isResponse: bool, line: seq<LineField>, hs: HeaderList, maxHeadersSize: Option<int>): (r: ErrorOr<seq<byte>>)
    ensures var enc := EncodeHeaders(isResponse, line, hs);
      r.Ok? <==> enc.Ok? && |enc.value| <= EffectiveMaxHeadersSize(maxHeadersSize) && |enc.value| <= INT32_MAX
    ensures var enc := EncodeHeaders(isResponse, line, hs);
      r.Ok? ==> r.value == Prefix(TAG_FOR_QUASI_HTTP_HEADERS, |enc.value|) + enc.value
    ensures var enc := EncodeHeaders(isResponse, line, hs);
      enc.Ok? && |enc.value| > EffectiveMaxHeadersSize(maxHeadersSize) ==>
        r == Err(SizeExceeded(|enc.value|, EffectiveMaxHeadersSize(maxHeadersSize)))
    ensures EncodeHeaders(isResponse, line, hs).Err? ==> r == Err(EncodeHeaders(isResponse, line, hs).error)
  {
    var encoded :- EncodeHeaders(isResponse, line, hs);
    var max := EffectiveMaxHeadersSize(maxHeadersSize);
    if |encoded| > max then
      Err(SizeExceeded(|encoded|, max))
    else
      var prefix :- EncodeTagAndLength(TAG_FOR_QUASI_HTTP_HEADERS, |encoded|);
      Ok(prefix + encoded)
  }

  /**
   * read_quasi_http_headers: the tag must be the headers tag, the declared
   * length must not exceed the cap (checked before the payload is read), and
   * exactly that many bytes are decoded. Returns the decoded section and the
   * bytes after it.
   */
  function ReadHeaders(isResponse: bool, s: seq<byte>, maxHeadersSize: Option<int>): (r: ErrorOr<((Csv.Row, HeaderList), seq<byte>)>)
    ensures r.Ok? ==> |r.value.0.0| >= 4
    ensures r.Ok? ==> |r.value.1| + 8 <= |s| && r.value.1 == s[|s| - |r.value.1|..]
    ensures r.Ok? ==> ReadTag(s).Ok? && ReadTag(s).value.0 == TAG_FOR_QUASI_HTTP_HEADERS
    ensures ReadTag(s).Ok? && ReadTag(s).value.0 != TAG_FOR_QUASI_HTTP_HEADERS ==> r.Err? && r.error.QuasiHttp? && r.error.reason == ProtocolViolation
    ensures r.Ok? ==> |s| - |r.value.1| - 8 <= EffectiveMaxHeadersSize(maxHeadersSize)
    ensures r.Ok? ==> DecodeHeaders(isResponse, s[8..|s| - |r.value.1|]) == Ok(r.value.0)
  {
    var tag :- ReadTag(s);
    if tag.0 != TAG_FOR_QUASI_HTTP_HEADERS then
      Err(Violation("unexpected quasi http headers tag: $" + IntToString(tag.0)))
    else
      var max := EffectiveMaxHeadersSize(maxHeadersSize);
      var length :- ReadLength(tag.1);
      if length.0 > max then
        Err(SizeExceeded(length.0, max))
      else
        var payload :- ReadExactly(length.1, length.0);
        assert length.1 == s[8..] && payload.0 == s[8..][..length.0];
        assert |payload.1| == |s| - 8 - length.0 && s[8..|s| - |payload.1|] == payload.0;
        var section :- DecodeHeaders(isResponse, payload.0);
        Ok((section, payload.1))
  }

  // ---------------------------------------------------------------- properties: the header map

  lemma LowerIdempotent(s: string)
    ensures Lower(Lower(s)) == Lower(s)
  {
  }

  /** Extending adds the values under the name and changes nothing else. */
  lemma {:induction false} ExtendLookup(hs: HeaderList, name: string, values: seq<string>, k: string)
    ensures Lookup(Extend(hs, name, values), k)
         == if k == name then Some(Lookup(hs, k).GetOr([]) + values) else Lookup(hs, k)
    decreases |hs|
  {
    if |hs| > 0 && hs[0].0 != name {
      ExtendLookup(hs[1..], name, values, k);
      assert Extend(hs, name, values)[1..] == Extend(hs[1..], name, values);
    } else if |hs| > 0 {
      var r := Extend(hs, name, values);
      assert r[0] == (name, hs[0].1 + values) && r[1..] == hs[1..];
      assert Lookup(hs, name) == Some(hs[0].1);
    } else {
      assert Extend(hs, name, values) == [(name, values)];
      assert Extend(hs, name, values)[1..] == [];
      assert [] + values == values;
      assert Lookup(hs, k) == None;
    }
  }

  /** Extending keeps names unique. */
  lemma ExtendUnique(hs: HeaderList, name: string, values: seq<string>)
    requires UniqueNames(hs)
    ensures UniqueNames(Extend(hs, name, values))
    ensures forall i :: 0 <= i < |Extend(hs, name, values)| ==> Extend(hs, name, values)[i].0 == name || exists j :: 0 <= j < |hs| && hs[j].0 == Extend(hs, name, values)[i].0
  {
    var r := Extend(hs, name, values);
    assert UniqueNames(r) by {
      forall i, j | 0 <= i < j < |r| ensures r[i].0 != r[j].0 {
        assert r[i].0 == hs[i].0;
        if j < |hs| {
          assert r[j].0 == hs[j].0;
        }
      }
    }
    forall i | 0 <= i < |r|
      ensures r[i].0 == name || exists j :: 0 <= j < |hs| && hs[j].0 == r[i].0
    {
      if i < |hs| {
        assert hs[i].0 == r[i].0;
      }
    }
  }

  /**
   * Merging agrees with the reference definition: a name is present exactly
   * when the map had it or some kept row carries it, and its values are the
   * earlier ones followed by those of the rows, in row order.
   */
  lemma {:induction false} MergeLookup(acc: HeaderList, rows: seq<Csv.Row>, k: string)
    ensures Lookup(MergeRows(acc, rows), k).Some? <==> Lookup(acc, k).Some? || Mentions(rows, k)
    ensures Lookup(MergeRows(acc, rows), k).GetOr([]) == Lookup(acc, k).GetOr([]) + ValuesFor(rows, k)
    decreases |rows|
  {
    if |rows| > 0 {
      var next := if |rows[0]| < 2 then acc else Extend(acc, Lower(rows[0][0]), rows[0][1..]);
      MergeLookup(next, rows[1..], k);
      if |rows[0]| >= 2 {
        ExtendLookup(acc, Lower(rows[0][0]), rows[0][1..], k);
      }
      MentionsCons(rows, k);
    }
  }

  lemma MentionsCons(rows: seq<Csv.Row>, k: string)
    requires |rows| > 0
    ensures Mentions(rows, k) <==> (|rows[0]| >= 2 && Lower(rows[0][0]) == k) || Mentions(rows[1..], k)
  {
    if Mentions(rows[1..], k) {
      var i :| 0 <= i < |rows[1..]| && |rows[1..][i]| >= 2 && Lower(rows[1..][i][0]) == k;
      assert rows[i + 1] == rows[1..][i];
    }
    if Mentions(rows, k) && !(|rows[0]| >= 2 && Lower(rows[0][0]) == k) {
      var i :| 0 <= i < |rows| && |rows[i]| >= 2 && Lower(rows[i][0]) == k;
      assert rows[1..][i - 1] == rows[i];
    }
  }

  /** The merged map never holds a name twice, and every name in it is lower-case. */
  lemma {:induction false} MergeWellFormed(acc: HeaderList, rows: seq<Csv.Row>)
    requires UniqueNames(acc)
    requires forall i :: 0 <= i < |acc| ==> Lower(acc[i].0) == acc[i].0
    ensures UniqueNames(MergeRows(acc, rows))
    ensures forall i :: 0 <= i < |MergeRows(acc, rows)| ==> Lower(MergeRows(acc, rows)[i].0) == MergeRows(acc, rows)[i].0
    decreases |rows|
  {
    if |rows| > 0 {
      if |rows[0]| < 2 {
        MergeWellFormed(acc, rows[1..]);
      } else {
        var name := Lower(rows[0][0]);
        var next := Extend(acc, name, rows[0][1..]);
        ExtendUnique(acc, name, rows[0][1..]);
        LowerIdempotent(rows[0][0]);
        forall i | 0 <= i < |next|
          ensures Lower(next[i].0) == next[i].0
        {
          if next[i].0 != name {
            var j :| 0 <= j < |acc| && acc[j].0 == next[i].0;
          }
        }
        MergeWellFormed(next, rows[1..]);
      }
    }
  }

  // ---------------------------------------------------------------- properties: encoding

  /** Reference definition: all values the caller gave under names that lower-case to k, in map order. */
  function GivenValuesFor(hs: HeaderList, k: string): seq<string>
    decreases |hs|
  {
    if |hs| == 0 then [] else (if Lower(hs[0].0) == k then hs[0].1 else []) + GivenValuesFor(hs[1..], k)
  }

  /** Whether the caller gave a header with values under a name that lower-cases to k. */
  predicate Gives(hs: HeaderList, k: string) {
    exists i :: 0 <= i < |hs| && Lower(hs[i].0) == k && |hs[i].1| > 0
  }

  /** The encoder's rows carry, under each name, exactly the values the caller gave. */
  lemma {:induction false} HeaderRowsValues(hs: HeaderList, k: string)
    requires HeaderRows(hs).Ok?
    ensures ValuesFor(HeaderRows(hs).value, k) == GivenValuesFor(hs, k)
    ensures Mentions(HeaderRows(hs).value, k) <==> Gives(hs, k)
    decreases |hs|
  {
    if |hs| > 0 {
      assert forall i :: 0 <= i < |hs[1..]| ==> hs[1..][i] == hs[i + 1];
      HeaderRowsValues(hs[1..], k);
      var rows := HeaderRows(hs).value;
      if |hs[0].1| > 0 {
        var row := [hs[0].0] + hs[0].1;
        assert rows == [row] + HeaderRows(hs[1..]).value;
        assert row[1..] == hs[0].1 && row[0] == hs[0].0;
        MentionsCons(rows, k);
        assert rows[1..] == HeaderRows(hs[1..]).value;
      } else {
        assert rows == HeaderRows(hs[1..]).value;
      }
      GivesCons(hs, k);
    }
  }

  lemma GivesCons(hs: HeaderList, k: string)
    requires |hs| > 0
    ensures Gives(hs, k) <==> (Lower(hs[0].0) == k && |hs[0].1| > 0) || Gives(hs[1..], k)
  {
    if Gives(hs[1..], k) {
      var i :| 0 <= i < |hs[1..]| && Lower(hs[1..][i].0) == k && |hs[1..][i].1| > 0;
      assert hs[i + 1] == hs[1..][i];
    }
    if Gives(hs, k) && !(Lower(hs[0].0) == k && |hs[0].1| > 0) {
      var i :| 0 <= i < |hs| && Lower(hs[i].0) == k && |hs[i].1| > 0;
      assert hs[1..][i - 1] == hs[i];
    }
  }

  /**
   * Header codec round trip: decoding what was encoded for a line of four (or
   * more) values gives back the line's texts, and a map holding, under each
   * lower-cased name, exactly the values given under names that lower-case to it.
   */
  lemma HeadersRoundTrip(isResponse: bool, line: seq<LineField>, hs: HeaderList, k: string)
    requires |line| >= 4
    requires EncodeHeaders(isResponse, line, hs).Ok?
    ensures DecodeHeaders(isResponse, EncodeHeaders(isResponse, line, hs).value).Ok?
    ensures DecodeHeaders(isResponse, EncodeHeaders(isResponse, line, hs).value).value.0 == LineTexts(line)
    ensures Lookup(DecodeHeaders(isResponse, EncodeHeaders(isResponse, line, hs).value).value.1, k).Some? <==> Gives(hs, k)
    ensures Lookup(DecodeHeaders(isResponse, EncodeHeaders(isResponse, line, hs).value).value.1, k).GetOr([]) == GivenValuesFor(hs, k)
  {
    var rows := SectionRows(line, hs).value;
    assert rows[0] == LineTexts(line);
    assert rows[1..] == HeaderRows(hs).value;
    MergeLookup([], rows[1..], k);
    HeaderRowsValues(hs, k);
  }

  /** An empty line is an argument error; an empty header name or value is a protocol violation. */
  lemma EncodeRejects(isResponse: bool, line: seq<LineField>, hs: HeaderList)
    ensures |line| == 0 ==> EncodeHeaders(isResponse, line, hs) == Err(IllegalArgument("req_or_status_line argument is null"))
    ensures |line| > 0 && (exists i :: 0 <= i < |hs| && !HeaderAccepted(hs[i])) ==>
      EncodeHeaders(isResponse, line, hs).Err? && EncodeHeaders(isResponse, line, hs).error.reason == ProtocolViolation
  {
  }

  /** A space in a line field other than the status message is refused, naming the line. */
  lemma EncodeRejectsSpacedLine(isResponse: bool, line: seq<LineField>, hs: HeaderList, i: int)
    requires 0 <= i < |line| && !(isResponse && i == 2)
    requires ' ' in FieldText(line[i])
    requires HeaderRows(hs).Ok?
    ensures EncodeHeaders(isResponse, line, hs) == Err(Violation(if isResponse then BAD_STATUS_LINE_FIELD else BAD_REQUEST_LINE_FIELD))
  {
    var rows := SectionRows(line, hs).value;
    assert rows[0][i] == FieldText(line[i]);
    var j :| 0 <= j < |FieldText(line[i])| && FieldText(line[i])[j] == ' ';
    assert !IsPrintableAscii(rows[0][i][j], false);
    assert !SpecialLineValid(isResponse, rows[0]);
  }

  // ---------------------------------------------------------------- properties: decoding errors

  /** Malformed CSV, no rows, or a short first row: each a protocol violation with its message. */
  lemma DecodeRejects(isResponse: bool, buffer: seq<byte>)
    ensures Csv.Parse(BytesToString(buffer)).Err? ==>
      DecodeHeaders(isResponse, buffer) == Err(QuasiHttp(ProtocolViolation, "invalid quasi http headers", Some(Foreign(Csv.Parse(BytesToString(buffer)).error))))
    ensures |buffer| == 0 ==> DecodeHeaders(isResponse, buffer) == Err(Violation("invalid quasi http headers"))
    ensures Csv.Parse(BytesToString(buffer)).Ok? && |Csv.Parse(BytesToString(buffer)).value| > 0 && |Csv.Parse(BytesToString(buffer)).value[0]| < 4 ==>
      DecodeHeaders(isResponse, buffer) == Err(Violation("invalid quasi http " + LineKind(isResponse) + " line"))
  {
  }

  /** An unquoted line of fewer than four fields, like "HTTP/1.1,200", is refused as an invalid line. */
  lemma ShortPlainLineFails(isResponse: bool, line: Csv.Row)
    requires 0 < |line| < 4 && Csv.JoinPlain(line) != "" && IsAscii(Csv.JoinPlain(line))
    requires forall i :: 0 <= i < |line| ==> Csv.Plain(line[i])
    ensures DecodeHeaders(isResponse, StringToBytes(Csv.JoinPlain(line))) == Err(Violation("invalid quasi http " + LineKind(isResponse) + " line"))
  {
    Csv.PlainDocumentRead(line);
    AsciiRoundTrip(Csv.JoinPlain(line));
  }

  /** An unterminated quoted field, like the one in ""k\n,lopp", makes the section invalid. */
  lemma UnterminatedQuoteFails(isResponse: bool, f: string)
    requires IsAscii([Csv.QUOTE] + f)
    requires forall i :: 0 <= i < |f| ==> f[i] != Csv.QUOTE
    ensures DecodeHeaders(isResponse, StringToBytes([Csv.QUOTE] + f)).Err?
    ensures DecodeHeaders(isResponse, StringToBytes([Csv.QUOTE] + f)).error.message == "invalid quasi http headers"
  {
    Csv.UnterminatedQuoteFails(f);
    AsciiRoundTrip([Csv.QUOTE] + f);
  }

  /**
   * The decoded map, name by lower-cased name: a name is present exactly when
   * some row of two or more fields after the line carries it, and its values
   * are those rows' values in row order.
   */
  lemma DecodedLookup(isResponse: bool, buffer: seq<byte>, k: string)
    requires DecodeHeaders(isResponse, buffer).Ok?
    ensures Lookup(DecodeHeaders(isResponse, buffer).value.1, k).Some? <==> Mentions(Csv.Parse(BytesToString(buffer)).value[1..], k)
    ensures Lookup(DecodeHeaders(isResponse, buffer).value.1, k).GetOr([]) == ValuesFor(Csv.Parse(BytesToString(buffer)).value[1..], k)
  {
    MergeLookup([], Csv.Parse(BytesToString(buffer)).value[1..], k);
  }

  /** The plain text of ASCII rows is ASCII. */
  lemma {:induction false} PlainLinesAscii(rows: seq<Csv.Row>)
    requires AllAscii(rows)
    ensures IsAscii(Csv.PlainLines(rows))
    decreases |rows|
  {
    if |rows| > 0 {
      PlainRowAscii(rows[0]);
      PlainLinesAscii(rows[1..]);
    }
  }

  lemma {:induction false} PlainRowAscii(r: Csv.Row)
    requires forall j :: 0 <= j < |r| ==> IsAscii(r[j])
    ensures IsAscii(Csv.JoinPlain(r))
    decreases |r|
  {
    if |r| > 1 {
      PlainRowAscii(r[1..]);
    }
  }

  const REQUEST_VECTOR_LINE: Csv.Row := ["GET", "/home/index?q=results", "HTTP/1.1", "-1"]
  const REQUEST_VECTOR_HEADER: Csv.Row := ["Content-Type", "text/plain"]

  /**
   * The decoder's request vector, GET,/home/index?q=results,HTTP/1.1,-1 and
   * Content-Type,text/plain on two lines: the line as given, and the one header
   * under its lower-cased name.
   */
  lemma DecodeRequestVector()
    ensures IsAscii(Csv.PlainLines([REQUEST_VECTOR_LINE, REQUEST_VECTOR_HEADER]))
    ensures DecodeHeaders(false, StringToBytes(Csv.PlainLines([REQUEST_VECTOR_LINE, REQUEST_VECTOR_HEADER])))
      == Ok((REQUEST_VECTOR_LINE, [("content-type", ["text/plain"])]))
  {
    var rows := [REQUEST_VECTOR_LINE, REQUEST_VECTOR_HEADER];
    RequestVectorFields();
    PlainLinesAscii(rows);
    Csv.PlainLinesRead(rows);
    AsciiRoundTrip(Csv.PlainLines(rows));
    RequestVectorMerge();
    assert rows[1..] == [REQUEST_VECTOR_HEADER];
  }

  lemma RequestVectorFields()
    ensures AllAscii([REQUEST_VECTOR_LINE, REQUEST_VECTOR_HEADER])
    ensures forall i, j :: 0 <= i < 2 && 0 <= j < |[REQUEST_VECTOR_LINE, REQUEST_VECTOR_HEADER][i]| ==>
      Csv.Plain([REQUEST_VECTOR_LINE, REQUEST_VECTOR_HEADER][i][j])
    ensures Csv.JoinPlain(REQUEST_VECTOR_LINE) != "" && Csv.JoinPlain(REQUEST_VECTOR_HEADER) != ""
  {
    RequestVectorFieldTexts();
    RequestVectorHeaderTexts();
  }

  lemma RequestVectorFieldTexts()
    ensures IsAscii("GET") && Csv.Plain("GET")
    ensures IsAscii("/home/index?q=results") && Csv.Plain("/home/index?q=results")
    ensures IsAscii("HTTP/1.1") && Csv.Plain("HTTP/1.1")
    ensures IsAscii("-1") && Csv.Plain("-1")
  {
  }

  lemma RequestVectorHeaderTexts()
    ensures IsAscii("Content-Type") && Csv.Plain("Content-Type")
    ensures IsAscii("text/plain") && Csv.Plain("text/plain")
  {
  }

  lemma RequestVectorMerge()
    ensures MergeRows([], [REQUEST_VECTOR_HEADER]) == [("content-type", ["text/plain"])]
  {
    assert Lower("Content-Type") == "content-type";
    assert REQUEST_VECTOR_HEADER[1..] == ["text/plain"];
    assert [REQUEST_VECTOR_HEADER][1..] == [];
  }

  /**
   * As written, a header with a single value loses its header: the row holds the
   * value alone, and the decoder skips a row of one field. The corrected encoder
   * brings the value back under the lower-cased name.
   */
  lemma SingleValueHeaderLostAsWritten(isResponse: bool, line: seq<LineField>, name: string, v: string)
    requires |line| >= 4
    requires EncodeHeadersAsWritten(isResponse, line, [(name, [v])]).Ok?
    ensures DecodeHeaders(isResponse, EncodeHeadersAsWritten(isResponse, line, [(name, [v])]).value) == Ok((LineTexts(line), []))
    ensures EncodeHeaders(isResponse, line, [(name, [v])]).Ok? ==>
      Lookup(DecodeHeaders(isResponse, EncodeHeaders(isResponse, line, [(name, [v])]).value).value.1, Lower(name)) == Some([v])
  {
    var hs := [(name, [v])];
    assert HeaderRows(hs[1..]) == Ok([]);
    assert HeaderRowsAsWritten(hs).value == [[v]];
    var rows := [LineTexts(line)] + [[v]];
    assert rows[1..] == [[v]];
    assert MergeRows([], rows[1..]) == [];
    if EncodeHeaders(isResponse, line, hs).Ok? {
      HeadersRoundTrip(isResponse, line, hs, Lower(name));
      assert GivenValuesFor(hs[1..], Lower(name)) == [];
      assert GivenValuesFor(hs, Lower(name)) == [v];
      assert Gives(hs, Lower(name)) by {
        assert Lower(hs[0].0) == Lower(name) && |hs[0].1| > 0;
      }
    }
  }

  // ---------------------------------------------------------------- properties: framing

  /**
   * The written section is the "hdrs" prefix with the payload length, then the
   * payload; a payload up to the cap (equality included) is written, a larger
   * one is refused with the limit error.
   */
  lemma WriteHeadersShape(isResponse: bool, line: seq<LineField>, hs: HeaderList, maxHeadersSize: Option<int>)
    requires EncodeHeaders(isResponse, line, hs).Ok?
    requires |EncodeHeaders(isResponse, line, hs).value| <= EffectiveMaxHeadersSize(maxHeadersSize)
    requires |EncodeHeaders(isResponse, line, hs).value| <= INT32_MAX
    ensures WriteHeaders(isResponse, line, hs, maxHeadersSize)
         == Ok(Prefix(TAG_FOR_QUASI_HTTP_HEADERS, |EncodeHeaders(isResponse, line, hs).value|) + EncodeHeaders(isResponse, line, hs).value)
  {
  }

  lemma WriteHeadersLimit(isResponse: bool, line: seq<LineField>, hs: HeaderList, maxHeadersSize: Option<int>)
    requires EncodeHeaders(isResponse, line, hs).Ok?
    requires |EncodeHeaders(isResponse, line, hs).value| > EffectiveMaxHeadersSize(maxHeadersSize)
    ensures WriteHeaders(isResponse, line, hs, maxHeadersSize)
         == Err(SizeExceeded(|EncodeHeaders(isResponse, line, hs).value|, EffectiveMaxHeadersSize(maxHeadersSize)))
  {
  }

  /** A record under any other tag is refused before its length is looked at. */
  lemma ReadRejectsOtherTag(isResponse: bool, tag: int, length: int, t: seq<byte>, maxHeadersSize: Option<int>)
    requires ValidTag(tag) && tag != TAG_FOR_QUASI_HTTP_HEADERS && 0 <= length <= INT32_MAX
    ensures ReadHeaders(isResponse, Prefix(tag, length) + t, maxHeadersSize)
         == Err(Violation("unexpected quasi http headers tag: $" + IntToString(tag)))
  {
    PrefixTagReadsBack(tag, length, t);
  }

  /** A declared length above the cap is refused whatever follows, even when the payload is missing. */
  lemma ReadRejectsOversize(isResponse: bool, length: int, t: seq<byte>, maxHeadersSize: Option<int>)
    requires EffectiveMaxHeadersSize(maxHeadersSize) < length <= INT32_MAX
    ensures ReadHeaders(isResponse, Prefix(TAG_FOR_QUASI_HTTP_HEADERS, length) + t, maxHeadersSize)
         == Err(SizeExceeded(length, EffectiveMaxHeadersSize(maxHeadersSize)))
  {
    PrefixReadsBack(TAG_FOR_QUASI_HTTP_HEADERS, length, t);
  }

  /** Within the cap, exactly the declared payload is decoded and what follows is left. */
  lemma ReadHeadersPayload(isResponse: bool, p: seq<byte>, t: seq<byte>, maxHeadersSize: Option<int>)
    requires |p| <= EffectiveMaxHeadersSize(maxHeadersSize) && |p| <= INT32_MAX
    ensures ReadHeaders(isResponse, Prefix(TAG_FOR_QUASI_HTTP_HEADERS, |p|) + p + t, maxHeadersSize)
         == (match DecodeHeaders(isResponse, p)
             case Ok(section) => Ok((section, t))
             case Err(e) => Err(e))
  {
    var s := Prefix(TAG_FOR_QUASI_HTTP_HEADERS, |p|) + p + t;
    assert s == Prefix(TAG_FOR_QUASI_HTTP_HEADERS, |p|) + (p + t);
    PrefixReadsBack(TAG_FOR_QUASI_HTTP_HEADERS, |p|, p + t);
    assert ReadExactly(p + t, |p|) == Ok((p, t)) by {
      assert (p + t)[..|p|] == p && (p + t)[|p|..] == t;
    }
  }

  /**
   * Framed round trip: what write_quasi_http_headers wrote is read back by
   * read_quasi_http_headers under any cap the payload fits, leaving the bytes
   * that follow.
   */
  lemma FramedRoundTrip(isResponse: bool, line: seq<LineField>, hs: HeaderList, writeMax: Option<int>, readMax: Option<int>, t: seq<byte>)
    requires |line| >= 4
    requires WriteHeaders(isResponse, line, hs, writeMax).Ok?
    requires |EncodeHeaders(isResponse, line, hs).value| <= EffectiveMaxHeadersSize(readMax)
    ensures ReadHeaders(isResponse, WriteHeaders(isResponse, line, hs, writeMax).value + t, readMax)
         == Ok((DecodeHeaders(isResponse, EncodeHeaders(isResponse, line, hs).value).value, t))
  {
    var encoded := EncodeHeaders(isResponse, line, hs).value;
    WriteHeadersShape(isResponse, line, hs, writeMax);
    ReadHeadersPayload(isResponse, encoded, t, readMax);
    HeadersRoundTrip(isResponse, line, hs, "");
  }

  /** The framed round trip with the bytes that follow split into a body part and the rest. */
  lemma FramedRoundTripBefore(isResponse: bool, line: seq<LineField>, hs: HeaderList, writeMax: Option<int>, readMax: Option<int>, body: seq<byte>, t: seq<byte>)
    requires |line| >= 4
    requires WriteHeaders(isResponse, line, hs, writeMax).Ok?
    requires |EncodeHeaders(isResponse, line, hs).value| <= EffectiveMaxHeadersSize(readMax)
    ensures ReadHeaders(isResponse, WriteHeaders(isResponse, line, hs, writeMax).value + body + t, readMax)
         == Ok((DecodeHeaders(isResponse, EncodeHeaders(isResponse, line, hs).value).value, body + t))
  {
    var head := WriteHeaders(isResponse, line, hs, writeMax).value;
    assert head + body + t == head + (body + t);
    FramedRoundTrip(isResponse, line, hs, writeMax, readMax, body + t);
  }
}
