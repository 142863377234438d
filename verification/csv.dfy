/**
 * The comma-separated-value form of a header section, as the codec's tests fix
 * it: every field written enclosed in double quotes with inner quotes doubled,
 * fields separated by commas, every row ended by a line feed. Reading follows
 * section 2 of RFC 4180, rules 5 to 7, and also accepts unquoted fields, rows
 * ended by CR LF, rows without a final line end, and blank lines (empty rows).
 */
module Csv {
  import opened Wrappers

  type Row = seq<string>

  const QUOTE: char := '"'

  // ---------------------------------------------------------------- writing

  /** A field's characters with every double quote doubled. */
  function Escape(f: string): (e: string)
    ensures |e| >= |f|
    decreases |f|
  {
    if |f| == 0 then ""
    else if f[0] == QUOTE then [QUOTE, QUOTE] + Escape(f[1..])
    else [f[0]] + Escape(f[1..])
  }

  /** A field as written: enclosed in double quotes. */
  function EncodeField(f: string): string {
    [QUOTE] + Escape(f) + [QUOTE]
  }

  /** The fields of a row, each enclosed in quotes, separated by commas. */
  function JoinFields(r: Row): string
    decreases |r|
  {
    if |r| == 0 then ""
    else if |r| == 1 then EncodeField(r[0])
    else EncodeField(r[0]) + "," + JoinFields(r[1..])
  }

  function EncodeRow(r: Row): string {
    JoinFields(r) + "\n"
  }

  /** The whole document: its rows one after another. */
  function Encode(rows: seq<Row>): (r: string)
    ensures r == "" <==> |rows| == 0
    ensures |rows| > 0 ==> r[0] == (if |rows[0]| == 0 then '\n' else QUOTE)
    ensures r != "" ==> r[|r| - 1] == '\n'
    decreases |rows|
  {
    if |rows| == 0 then "" else EncodeRow(rows[0]) + Encode(rows[1..])
  }

  // ---------------------------------------------------------------- reading

  /**
   * The rest of a quoted field, its opening quote already consumed: the field's
   * value and the text after its closing quote. A doubled quote stands for one
   * quote; running out of text before the closing quote is an error.
   */
  function ParseQuoted(s: string): (r: Result<(string, string), string>)
    ensures r.Ok? ==> |r.value.1| < |s|
    decreases |s|
  {
    if |s| == 0 then
      Err("unexpected end of data")
    else if s[0] == QUOTE then
      if |s| > 1 && s[1] == QUOTE then
        var more :- ParseQuoted(s[2..]);
        Ok(([QUOTE] + more.0, more.1))
      else
        Ok(("", s[1..]))
    else
      var more :- ParseQuoted(s[1..]);
      Ok(([s[0]] + more.0, more.1))
  }

  /** A character that ends an unquoted field, or may not appear in one. */
  predicate StopsUnquoted(c: char) {
    c == ',' || c == '\n' || c == '\r' || c == QUOTE
  }

  /** An unquoted field: the longest prefix free of separators, line ends and quotes. */
  function ParseUnquoted(s: string): (r: (string, string))
    ensures r.0 + r.1 == s
    ensures Plain(r.0)
    ensures |r.1| == 0 || StopsUnquoted(r.1[0])
    decreases |s|
  {
    if |s| == 0 || StopsUnquoted(s[0]) then
      ("", s)
    else
      var more := ParseUnquoted(s[1..]);
      ConsPlain(s[0], more.0);
      assert [s[0]] + s[1..] == s;
      ([s[0]] + more.0, more.1)
  }

  lemma ConsPlain(c: char, f: string)
    requires !StopsUnquoted(c) && Plain(f)
    ensures Plain([c] + f)
  {
    forall i | 0 <= i < |[c] + f|
      ensures !StopsUnquoted(([c] + f)[i])
    {
      if i > 0 {
        assert ([c] + f)[i] == f[i - 1];
      }
    }
  }

  function ParseField(s: string): (r: Result<(string, string), string>)
    ensures r.Ok? ==> |r.value.1| <= |s|
  {
    if |s| > 0 && s[0] == QUOTE then ParseQuoted(s[1..]) else Ok(ParseUnquoted(s))
  }

  /**
   * The fields of one row and the text after its line end. After each field
   * comes a comma (another field follows), a line end, or the end of the text;
   * anything else is an error.
   */
  function ParseFields(s: string): (r: Result<(Row, string), string>)
    ensures r.Ok? ==> |r.value.0| > 0 && |r.value.1| <= |s|
    ensures r.Ok? && |s| > 0 ==> |r.value.1| < |s|
    decreases |s|
  {
    var field :- ParseField(s);
    var t := field.1;
    if |t| == 0 then
      Ok(([field.0], t))
    else if t[0] == ',' then
      var more :- ParseFields(t[1..]);
      Ok(([field.0] + more.0, more.1))
    else if t[0] == '\n' then
      Ok(([field.0], t[1..]))
    else if t[0] == '\r' && |t| > 1 && t[1] == '\n' then
      Ok(([field.0], t[2..]))
    else
      Err("unexpected character after field")
  }

  /** One row of non-empty text; a blank line is an empty row. */
  function ParseRow(s: string): (r: Result<(Row, string), string>)
    requires |s| > 0
    ensures r.Ok? ==> |r.value.1| < |s|
  {
    if s[0] == '\n' then
      Ok(([], s[1..]))
    else if s[0] == '\r' && |s| > 1 && s[1] == '\n' then
      Ok(([], s[2..]))
    else
      ParseFields(s)
  }

  /** All rows of a document; the empty text has none. */
  function Parse(s: string): (r: Result<seq<Row>, string>)
    ensures |s| == 0 ==> r == Ok([])
    ensures r.Ok? && |s| > 0 ==> |r.value| > 0
    decreases |s|
  {
    if |s| == 0 then
      Ok([])
    else
      var row :- ParseRow(s);
      var rows :- Parse(row.1);
      Ok([row.0] + rows)
  }

  // ---------------------------------------------------------------- properties

  /** A quoted field reads back as its value, leaving what follows its closing quote. */
  lemma {:induction false} QuotedRoundTrip(f: string, t: string)
    requires |t| == 0 || t[0] != QUOTE
    ensures ParseQuoted(Escape(f) + [QUOTE] + t) == Ok((f, t))
    decreases |f|
  {
    var s := Escape(f) + [QUOTE] + t;
    if |f| == 0 {
      assert s == [QUOTE] + t;
      assert s[1..] == t;
    } else if f[0] == QUOTE {
      QuotedRoundTrip(f[1..], t);
      assert s == [QUOTE, QUOTE] + (Escape(f[1..]) + [QUOTE] + t);
      assert s[2..] == Escape(f[1..]) + [QUOTE] + t;
      assert [QUOTE] + f[1..] == f;
    } else {
      QuotedRoundTrip(f[1..], t);
      assert s == [f[0]] + (Escape(f[1..]) + [QUOTE] + t);
      assert s[1..] == Escape(f[1..]) + [QUOTE] + t;
      assert [f[0]] + f[1..] == f;
    }
  }

  /** A written field reads back as itself. */
  lemma FieldRoundTrip(f: string, t: string)
    requires |t| == 0 || t[0] != QUOTE
    ensures ParseField(EncodeField(f) + t) == Ok((f, t))
  {
    var s := EncodeField(f) + t;
    assert s == [QUOTE] + (Escape(f) + [QUOTE] + t);
    assert s[1..] == Escape(f) + [QUOTE] + t;
    QuotedRoundTrip(f, t);
  }

  /** The last field of a row reads back, up to and past the line end. */
  lemma LastFieldRoundTrip(f: string, t: string)
    ensures ParseFields(EncodeField(f) + "\n" + t) == Ok(([f], t))
  {
    var s := EncodeField(f) + "\n" + t;
    assert s == EncodeField(f) + ("\n" + t);
    FieldRoundTrip(f, "\n" + t);
    assert ("\n" + t)[1..] == t;
  }

  /** A field followed by a comma reads back, then the rest of the row is read. */
  lemma InnerFieldRoundTrip(f: string, rest: string)
    ensures ParseFields(EncodeField(f) + "," + rest)
         == (match ParseFields(rest)
             case Ok(more) => Ok(([f] + more.0, more.1))
             case Err(e) => Err(e))
  {
    var s := EncodeField(f) + "," + rest;
    assert s == EncodeField(f) + ("," + rest);
    FieldRoundTrip(f, "," + rest);
    assert ("," + rest)[1..] == rest;
  }

  /** The fields of a written non-empty row read back, up to and past its line end. */
  lemma {:induction false} FieldsRoundTrip(r: Row, t: string)
    requires |r| > 0
    ensures ParseFields(JoinFields(r) + "\n" + t) == Ok((r, t))
    decreases |r|
  {
    if |r| == 1 {
      LastFieldRoundTrip(r[0], t);
      assert [r[0]] == r;
    } else {
      var rest := JoinFields(r[1..]) + "\n" + t;
      assert JoinFields(r) + "\n" + t == EncodeField(r[0]) + "," + rest;
      InnerFieldRoundTrip(r[0], rest);
      FieldsRoundTrip(r[1..], t);
      assert [r[0]] + r[1..] == r;
    }
  }

  /** Every written row, the empty one included, reads back. */
  lemma RowRoundTrip(r: Row, t: string)
    ensures |EncodeRow(r) + t| > 0
    ensures ParseRow(EncodeRow(r) + t) == Ok((r, t))
  {
    var s := EncodeRow(r) + t;
    if |r| == 0 {
      assert s == "\n" + t;
      assert s[1..] == t;
    } else {
      FieldsRoundTrip(r, t);
      assert s[0] == QUOTE;
    }
  }

  /** Reading what was written gives back the rows, for every list of rows. */
  lemma {:induction false} RoundTrip(rows: seq<Row>)
    ensures Parse(Encode(rows)) == Ok(rows)
    decreases |rows|
  {
    if |rows| > 0 {
      var s := Encode(rows);
      RowRoundTrip(rows[0], Encode(rows[1..]));
      RoundTrip(rows[1..]);
      assert [rows[0]] + rows[1..] == rows;
    }
  }

  /** Writing is injective: different row lists never share a document. */
  lemma EncodeInjective(a: seq<Row>, b: seq<Row>)
    requires Encode(a) == Encode(b)
    ensures a == b
  {
    RoundTrip(a);
    RoundTrip(b);
  }

  /** A field that can be written without quotes. */
  predicate Plain(f: string) {
    forall i :: 0 <= i < |f| ==> !StopsUnquoted(f[i])
  }

  /** A row written without quoting, as the decoder's tests also supply it. */
  function JoinPlain(r: Row): string
    decreases |r|
  {
    if |r| == 0 then ""
    else if |r| == 1 then r[0]
    else r[0] + "," + JoinPlain(r[1..])
  }

  /** A valid row terminator before the text t: a line end, or nothing at the very end. */
  predicate RowEnd(term: string, t: string) {
    term == "\n" || term == "\r\n" || (term == "" && t == "")
  }

  lemma {:induction false} PlainUnquoted(f: string, t: string)
    requires Plain(f) && (|t| == 0 || StopsUnquoted(t[0]))
    ensures ParseUnquoted(f + t) == (f, t)
    decreases |f|
  {
    if |f| > 0 {
      PlainUnquoted(f[1..], t);
      assert (f + t)[1..] == f[1..] + t;
      assert [f[0]] + f[1..] == f;
    } else {
      assert f + t == t;
    }
  }

  /** An unquoted field reads back as itself when a separator or line end follows it. */
  lemma PlainFieldRead(f: string, t: string)
    requires Plain(f) && (|t| == 0 || t[0] == ',' || t[0] == '\n' || t[0] == '\r')
    ensures ParseField(f + t) == Ok((f, t))
  {
    PlainUnquoted(f, t);
    if |f| > 0 {
      assert (f + t)[0] == f[0];
    } else {
      assert f + t == t;
    }
  }

  /** Unquoted fields separated by commas read back as those fields, whatever line end closes them. */
  lemma {:induction false} PlainRowRead(r: Row, term: string, t: string)
    requires |r| > 0 && RowEnd(term, t)
    requires forall i :: 0 <= i < |r| ==> Plain(r[i])
    ensures ParseFields(JoinPlain(r) + term + t) == Ok((r, t))
    decreases |r|
  {
    var s := JoinPlain(r) + term + t;
    if |r| == 1 {
      assert s == r[0] + (term + t);
      PlainFieldRead(r[0], term + t);
      assert [r[0]] == r;
      if term == "\n" {
        assert (term + t)[1..] == t;
      } else if term == "\r\n" {
        assert (term + t)[2..] == t;
      }
    } else {
      var rest := JoinPlain(r[1..]) + term + t;
      assert s == r[0] + ("," + rest);
      PlainFieldRead(r[0], "," + rest);
      assert ("," + rest)[1..] == rest;
      PlainRowRead(r[1..], term, t);
      assert [r[0]] + r[1..] == r;
    }
  }

  /** A single unquoted row with no line end is the whole document. */
  lemma PlainDocumentRead(r: Row)
    requires |r| > 0 && JoinPlain(r) != ""
    requires forall i :: 0 <= i < |r| ==> Plain(r[i])
    ensures Parse(JoinPlain(r)) == Ok([r])
  {
    PlainRowRead(r, "", "");
    var s := JoinPlain(r);
    assert s + "" + "" == s;
    PlainRowStart(r);
    assert ParseRow(s) == Ok((r, ""));
    assert [r] + [] == [r];
  }

  /** A non-empty unquoted row does not start with a line end, so it is not read as a blank line. */
  lemma PlainRowStart(r: Row)
    requires |r| > 0 && JoinPlain(r) != ""
    requires forall i :: 0 <= i < |r| ==> Plain(r[i])
    ensures JoinPlain(r)[0] != '\n' && JoinPlain(r)[0] != '\r'
  {
    var s := JoinPlain(r);
    if |r[0]| > 0 {
      assert s[0] == r[0][0];
    } else {
      assert |r| > 1;
      assert s[0] == ',';
    }
  }

  /** Unquoted rows, each closed by a line feed, as the decoder's tests also supply them. */
  function PlainLines(rows: seq<Row>): string
    decreases |rows|
  {
    if |rows| == 0 then "" else JoinPlain(rows[0]) + "\n" + PlainLines(rows[1..])
  }

  /** Unquoted rows, each closed by a line feed, read back as those rows. */
  lemma {:induction false} PlainLinesRead(rows: seq<Row>)
    requires forall i :: 0 <= i < |rows| ==> |rows[i]| > 0 && JoinPlain(rows[i]) != ""
    requires forall i, j :: 0 <= i < |rows| && 0 <= j < |rows[i]| ==> Plain(rows[i][j])
    ensures Parse(PlainLines(rows)) == Ok(rows)
    decreases |rows|
  {
    if |rows| > 0 {
      var r := rows[0];
      var t := PlainLines(rows[1..]);
      var s := PlainLines(rows);
      PlainRowRead(r, "\n", t);
      PlainRowStart(r);
      assert s[0] == JoinPlain(r)[0];
      assert ParseRow(s) == Ok((r, t));
      PlainLinesRead(rows[1..]);
      assert [r] + rows[1..] == rows;
    }
  }

  /** A quoted field whose closing quote never comes is refused. */
  lemma UnterminatedQuoteFails(f: string)
    requires forall i :: 0 <= i < |f| ==> f[i] != QUOTE
    ensures ParseField([QUOTE] + f).Err?
    ensures Parse([QUOTE] + f).Err?
  {
    var s := [QUOTE] + f;
    assert s[1..] == f;
    UnquotedTextRunsOut(f);
  }

  /** A quote inside an unquoted field (a"b) is refused, where Python's reader keeps it as text. */
  lemma QuoteInUnquotedFieldFails(f: string, t: string)
    requires |f| > 0 && Plain(f)
    ensures ParseFields(f + [QUOTE] + t).Err?
    ensures Parse(f + [QUOTE] + t).Err?
  {
    var s := f + [QUOTE] + t;
    assert s == f + ([QUOTE] + t);
    PlainUnquoted(f, [QUOTE] + t);
    assert s[0] == f[0] && !StopsUnquoted(f[0]);
  }

  lemma {:induction false} UnquotedTextRunsOut(f: string)
    requires forall i :: 0 <= i < |f| ==> f[i] != QUOTE
    ensures ParseQuoted(f).Err?
    decreases |f|
  {
    if |f| > 0 {
      UnquotedTextRunsOut(f[1..]);
    }
  }
}
