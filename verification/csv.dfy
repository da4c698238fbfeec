/** The CSV encoding of the export: every field wrapped in double quotes
    with inner quotes doubled, fields joined by commas, each record ended by
    a line feed. This is the quoting of section 2 (items 5 to 7) of RFC 4180,
    with LF in place of CRLF as the record terminator.

    The reference partner is a reader for that format: `ParseDocument`
    recovers the records from the encoded text. */
module Csv {
  import opened Basics

  // ---- writing ----

  /** `str_replace('"', '""', $field)`. */
  function EscapeQuotes(s: string): (r: string)
    ensures |r| >= |s|
  {
    if |s| == 0 then ""
    else (if s[0] == '"' then "\"\"" else [s[0]]) + EscapeQuotes(s[1..])
  }

  /** The closure in `array_map`: quote, escape, quote. */
  function QuoteField(s: string): (q: string)
    ensures |q| >= |s| + 2 && q[0] == '"' && q[|q| - 1] == '"'
  {
    "\"" + EscapeQuotes(s) + "\""
  }

  /** `implode(',', array_map(quote, $row))`. */
  function JoinQuoted(row: seq<string>): string {
    if |row| == 0 then ""
    else if |row| == 1 then QuoteField(row[0])
    else QuoteField(row[0]) + "," + JoinQuoted(row[1..])
  }

  /** One record: the joined fields and a line feed. */
  function EncodeRow(row: seq<string>): string {
    JoinQuoted(row) + "\n"
  }

  /** The whole file: the records one after the other. */
  function EncodeDocument(rows: seq<seq<string>>): (doc: string)
    ensures doc == "" <==> rows == []
    ensures rows != [] ==> doc[|doc| - 1] == '\n'
  {
    if |rows| == 0 then "" else EncodeRow(rows[0]) + EncodeDocument(rows[1..])
  }

  // ---- reading ----

  /** Something read and the text after it. */
  datatype Parsed<T> = Parsed(value: T, rest: string)

  /** Reads the inside of a quoted field, after its opening quote, up to
      and including the closing quote; a doubled quote stands for one. */
  function ParseQuotedBody(s: string): (r: Option<Parsed<string>>)
    ensures r.Some? ==> |r.value.rest| < |s|
    decreases |s|
  {
    if |s| == 0 then None
    else if s[0] == '"' then
      if |s| >= 2 && s[1] == '"' then
        match ParseQuotedBody(s[2..])
        case None => None
        case Some(p) => Some(Parsed("\"" + p.value, p.rest))
      else Some(Parsed("", s[1..]))
    else
      match ParseQuotedBody(s[1..])
      case None => None
      case Some(p) => Some(Parsed([s[0]] + p.value, p.rest))
  }

  /** Reads one quoted field. */
  function ParseField(s: string): (r: Option<Parsed<string>>)
    ensures r.Some? ==> |r.value.rest| < |s|
  {
    if |s| == 0 || s[0] != '"' then None else ParseQuotedBody(s[1..])
  }

  /** Reads the comma-separated fields of one record and its line feed. */
  function ParseRecord(s: string): (r: Option<Parsed<seq<string>>>)
    ensures r.Some? ==> |r.value.rest| < |s|
    decreases |s|
  {
    match ParseField(s)
    case None => None
    case Some(f) =>
      if |f.rest| > 0 && f.rest[0] == '\n' then Some(Parsed([f.value], f.rest[1..]))
      else if |f.rest| > 0 && f.rest[0] == ',' then
        match ParseRecord(f.rest[1..])
        case None => None
        case Some(p) => Some(Parsed([f.value] + p.value, p.rest))
      else None
  }

  /** Reads records until the text is used up. */
  function ParseDocument(s: string): Option<seq<seq<string>>>
    decreases |s|
  {
    if |s| == 0 then Some([])
    else
      match ParseRecord(s)
      case None => None
      case Some(p) =>
        match ParseDocument(p.rest)
        case None => None
        case Some(rows) => Some([p.value] + rows)
  }

  // ---- round trip ----

  /** Reading an escaped field body back stops exactly at its closing quote,
      as long as the next character is not itself a quote. */
  lemma {:induction false} ParseBodyEscape(x: string, rest: string)
    requires |rest| == 0 || rest[0] != '"'
    ensures ParseQuotedBody(EscapeQuotes(x) + "\"" + rest) == Some(Parsed(x, rest))
    decreases |x|
  {
    var s := EscapeQuotes(x) + "\"" + rest;
    if |x| == 0 {
      assert s == "\"" + rest;
      assert s[1..] == rest;
    } else {
      ParseBodyEscape(x[1..], rest);
      assert x == [x[0]] + x[1..];
      if x[0] == '"' {
        assert s == "\"\"" + (EscapeQuotes(x[1..]) + "\"" + rest);
        assert s[2..] == EscapeQuotes(x[1..]) + "\"" + rest;
      } else {
        assert s == [x[0]] + (EscapeQuotes(x[1..]) + "\"" + rest);
        assert s[1..] == EscapeQuotes(x[1..]) + "\"" + rest;
      }
    }
  }

  /** A quoted field reads back as the original text, whatever it holds
      (quotes, commas and line feeds included). */
  lemma UnquoteQuoteField(x: string, rest: string)
    requires |rest| == 0 || rest[0] != '"'
    ensures ParseField(QuoteField(x) + rest) == Some(Parsed(x, rest))
  {
    var s := QuoteField(x) + rest;
    assert s == "\"" + (EscapeQuotes(x) + "\"" + rest);
    assert s[1..] == EscapeQuotes(x) + "\"" + rest;
    ParseBodyEscape(x, rest);
  }

  /** A non-empty record reads back as its fields. */
  lemma {:induction false} ParseRecordEncode(row: seq<string>, rest: string)
    requires |row| >= 1
    ensures ParseRecord(JoinQuoted(row) + "\n" + rest) == Some(Parsed(row, rest))
    decreases |row|
  {
    var s := JoinQuoted(row) + "\n" + rest;
    if |row| == 1 {
      assert s == QuoteField(row[0]) + ("\n" + rest);
      UnquoteQuoteField(row[0], "\n" + rest);
      assert ("\n" + rest)[1..] == rest;
      assert row == [row[0]];
    } else {
      var tail := JoinQuoted(row[1..]) + "\n" + rest;
      assert s == QuoteField(row[0]) + ("," + tail);
      UnquoteQuoteField(row[0], "," + tail);
      assert ("," + tail)[1..] == tail;
      ParseRecordEncode(row[1..], rest);
      assert row == [row[0]] + row[1..];
    }
  }

  /** Round trip: the encoded file reads back as the records it was made
      from, provided no record is empty. */
  lemma {:induction false} ParseDocumentEncode(rows: seq<seq<string>>)
    requires forall i :: 0 <= i < |rows| ==> |rows[i]| >= 1
    ensures ParseDocument(EncodeDocument(rows)) == Some(rows)
    decreases |rows|
  {
    if |rows| > 0 {
      var s := EncodeDocument(rows);
      var rest := EncodeDocument(rows[1..]);
      assert s == JoinQuoted(rows[0]) + "\n" + rest;
      ParseRecordEncode(rows[0], rest);
      ParseDocumentEncode(rows[1..]);
      assert rows == [rows[0]] + rows[1..];
    }
  }

  /** Escaping works piece by piece. */
  lemma {:induction false} EscapeAppend(a: string, b: string)
    ensures EscapeQuotes(a + b) == EscapeQuotes(a) + EscapeQuotes(b)
    decreases |a|
  {
    if |a| > 0 {
      assert (a + b)[0] == a[0];
      assert (a + b)[1..] == a[1..] + b;
      EscapeAppend(a[1..], b);
    } else {
      assert a + b == b;
    }
  }

  /** A field without quotes is written unchanged between the two quotes. */
  lemma {:induction false} EscapeNoQuote(s: string)
    requires '"' !in s
    ensures EscapeQuotes(s) == s
    decreases |s|
  {
    if |s| > 0 {
      assert forall i :: 0 <= i < |s[1..]| ==> s[1..][i] == s[i + 1];
      EscapeNoQuote(s[1..]);
      assert s == [s[0]] + s[1..];
    }
  }

  /** Quote-free text followed by a quote: the text is kept and the quote doubled. */
  lemma EscapeUpToQuote(a: string, rest: string)
    requires '"' !in a
    ensures EscapeQuotes(a + "\"" + rest) == a + "\"\"" + EscapeQuotes(rest)
  {
    var qr := "\"" + rest;
    assert a + "\"" + rest == a + qr;
    EscapeNoQuote(a);
    EscapeAppend(a, qr);
    assert qr[0] == '"';
    assert qr[1..] == rest;
    assert EscapeQuotes(qr) == "\"\"" + EscapeQuotes(rest);
  }

  /** A field with two quotes inside, such as `Jane "J" O'Brien`: each
      quote is doubled, everything else is kept, and the whole is wrapped. */
  lemma QuoteTwoInnerQuotes(a: string, j: string, o: string)
    requires '"' !in a && '"' !in j && '"' !in o
    ensures QuoteField(a + "\"" + j + "\"" + o) == "\"" + a + "\"\"" + j + "\"\"" + o + "\""
  {
    var tail := j + "\"" + o;
    assert a + "\"" + j + "\"" + o == a + "\"" + tail;
    EscapeUpToQuote(a, tail);
    EscapeUpToQuote(j, o);
    EscapeNoQuote(o);
  }
}
