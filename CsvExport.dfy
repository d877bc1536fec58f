/**
 * The text of a CSV download: the first record's keys as an unquoted
 * header line, then one line per record whose cells are the record's
 * values under those keys, each escaped and wrapped in double quotes.
 * Cells are separated by `,` and lines by a single LF.
 */
module CsvExport {
  import opened Wrappers
  import opened Strings

  /**
   * A record value: null, undefined, a date, a number, a string, or any
   * other value (boolean, object, array) that is serialised as JSON.
   */
  datatype Value<D, N, O> =
    | Null
    | Undefined
    | DateValue(date: D)
    | NumberValue(number: N)
    | StringValue(str: string)
    | OtherValue(other: O)

  /**
   * The library formatters the writer relies on: `Date.toISOString`,
   * `Number.toLocaleString('tr-TR')` and `JSON.stringify`.
   */
  datatype Formats<!D, !N, !O> = Formats(iso: D -> string, locale: N -> string, json: O -> string)

  /** A record: its fields in key order, as a JavaScript object keeps them. */
  type Record<D, N, O> = seq<(string, Value<D, N, O>)>

  /** `Object.keys(row)`. */
  function Keys<D, N, O>(row: Record<D, N, O>): (ks: seq<string>)
    ensures |ks| == |row|
    ensures forall i :: 0 <= i < |row| ==> ks[i] == row[i].0
  {
    seq(|row|, i requires 0 <= i < |row| => row[i].0)
  }

  /** Field `i` is the first field of `row` with key `key`. */
  predicate FirstField<D, N, O>(row: Record<D, N, O>, key: string, i: int) {
    0 <= i < |row| && row[i].0 == key && forall j :: 0 <= j < i ==> row[j].0 != key
  }

  /**
   * `row[key]`: the value of the field with that key (the first one, should
   * a record list a key twice), or undefined when there is none.
   */
  function Get<D, N, O>(row: Record<D, N, O>, key: string): (v: Value<D, N, O>)
    ensures key !in Keys(row) ==> v == Undefined
    ensures key in Keys(row) ==> exists i :: FirstField(row, key, i) && v == row[i].1
  {
    if row == [] then Undefined
    else if row[0].0 == key then
      assert FirstField(row, key, 0);
      row[0].1
    else
      assert Keys(row[1..]) == Keys(row)[1..];
      var v := Get(row[1..], key);
      assert key in Keys(row) ==> exists i :: FirstField(row, key, i) && v == row[i].1 by {
        if key in Keys(row[1..]) {
          var i :| FirstField(row[1..], key, i) && v == row[1..][i].1;
          assert FirstField(row, key, i + 1);
        }
      }
      v
  }

  // ---------------------------------------------------------------------
  // Escaping
  // ---------------------------------------------------------------------

  /** `s.replace(/"/g, '""')`: every double quote doubled. */
  function EscapeQuotes(s: string): string {
    if s == [] then []
    else (if s[0] == '"' then "\"\"" else [s[0]]) + EscapeQuotes(s[1..])
  }

  /** The inverse a CSV reader applies: each `""`, left to right, becomes `"`. */
  function UnescapeQuotes(s: string): string {
    if s == [] then []
    else if |s| >= 2 && s[0] == '"' && s[1] == '"' then "\"" + UnescapeQuotes(s[2..])
    else [s[0]] + UnescapeQuotes(s[1..])
  }

  /** Double quotes occur only in adjacent pairs. */
  predicate QuotesDoubled(s: string) {
    if s == [] then true
    else if s[0] == '"' then |s| >= 2 && s[1] == '"' && QuotesDoubled(s[2..])
    else QuotesDoubled(s[1..])
  }

  /** Unescaping recovers the escaped string. */
  lemma {:induction false} EscapeRoundTrip(s: string)
    ensures UnescapeQuotes(EscapeQuotes(s)) == s
  {
    if s != [] {
      EscapeRoundTrip(s[1..]);
      var e := EscapeQuotes(s);
      if s[0] == '"' {
        assert e == "\"\"" + EscapeQuotes(s[1..]);
        assert e[2..] == EscapeQuotes(s[1..]);
      } else {
        assert e == [s[0]] + EscapeQuotes(s[1..]);
        assert e[1..] == EscapeQuotes(s[1..]);
      }
      assert [s[0]] + s[1..] == s;
    }
  }

  /** After escaping, every double quote is one of an adjacent pair. */
  lemma {:induction false} EscapedQuotesDoubled(s: string)
    ensures QuotesDoubled(EscapeQuotes(s))
  {
    if s != [] {
      EscapedQuotesDoubled(s[1..]);
      var e := EscapeQuotes(s);
      if s[0] == '"' {
        assert e[2..] == EscapeQuotes(s[1..]);
      } else {
        assert e[1..] == EscapeQuotes(s[1..]);
      }
    }
  }

  /** Escaping changes nothing in a string without double quotes. */
  lemma {:induction false} EscapeQuoteFree(s: string)
    requires '"' !in s
    ensures EscapeQuotes(s) == s
  {
    if s != [] {
      EscapeQuoteFree(s[1..]);
      assert [s[0]] + s[1..] == s;
    }
  }

  /** Escaping neither adds nor removes any character other than `"`. */
  lemma {:induction false} EscapeKeepsOthers(s: string, c: char)
    requires c != '"'
    ensures c in EscapeQuotes(s) <==> c in s
  {
    if s != [] {
      EscapeKeepsOthers(s[1..], c);
      assert s == [s[0]] + s[1..];
    }
  }

  /**
   * `escapeValue`: the cell body of a value, before the surrounding quotes.
   * Null and undefined give nothing; strings and JSON text have their quotes
   * doubled, so they read back unchanged; dates and numbers pass through.
   */
  function EscapeValue<D, N, O>(v: Value<D, N, O>, f: Formats<D, N, O>): (r: string)
    ensures v.Null? || v.Undefined? ==> r == []
    ensures v.DateValue? ==> r == f.iso(v.date)
    ensures v.NumberValue? ==> r == f.locale(v.number)
    ensures v.StringValue? ==> QuotesDoubled(r) && UnescapeQuotes(r) == v.str
    ensures v.OtherValue? ==> QuotesDoubled(r) && UnescapeQuotes(r) == f.json(v.other)
  {
    match v
    case Null => []
    case Undefined => []
    case DateValue(d) => f.iso(d)
    case NumberValue(n) => f.locale(n)
    case StringValue(s) =>
      EscapedQuotesDoubled(s);
      EscapeRoundTrip(s);
      EscapeQuotes(s)
    case OtherValue(o) =>
      EscapedQuotesDoubled(f.json(o));
      EscapeRoundTrip(f.json(o));
      EscapeQuotes(f.json(o))
  }

  /** The text a CSV reader gets back for a value's cell. */
  function CellText<D, N, O>(v: Value<D, N, O>, f: Formats<D, N, O>): string {
    match v
    case Null => []
    case Undefined => []
    case DateValue(d) => f.iso(d)
    case NumberValue(n) => f.locale(n)
    case StringValue(s) => s
    case OtherValue(o) => f.json(o)
  }

  /**
   * Dates and numbers are written without escaping, so they must not
   * produce double quotes (ISO timestamps and Turkish-locale numbers do not).
   */
  ghost predicate QuoteFreeFormats<D(!new), N(!new), O>(f: Formats<D, N, O>) {
    (forall d :: '"' !in f.iso(d)) && (forall n :: '"' !in f.locale(n))
  }

  /** Every cell body is its reader text with quotes doubled. */
  lemma EscapeValueEscapesText<D(!new), N(!new), O>(v: Value<D, N, O>, f: Formats<D, N, O>)
    requires QuoteFreeFormats(f)
    ensures EscapeValue(v, f) == EscapeQuotes(CellText(v, f))
    ensures QuotesDoubled(EscapeValue(v, f))
    ensures UnescapeQuotes(EscapeValue(v, f)) == CellText(v, f)
  {
    var t := CellText(v, f);
    if v.DateValue? || v.NumberValue? {
      EscapeQuoteFree(t);
    }
    EscapedQuotesDoubled(t);
    EscapeRoundTrip(t);
  }

  // ---------------------------------------------------------------------
  // Lines and document
  // ---------------------------------------------------------------------

  /** A cell: the escaped value wrapped in double quotes. */
  function Cell<D, N, O>(v: Value<D, N, O>, f: Formats<D, N, O>): string {
    "\"" + EscapeValue(v, f) + "\""
  }

  /** The cells of one record, one per header key, in header order. */
  function Cells<D, N, O>(row: Record<D, N, O>, headers: seq<string>, f: Formats<D, N, O>): seq<string> {
    seq(|headers|, i requires 0 <= i < |headers| => Cell(Get(row, headers[i]), f))
  }

  function DataLine<D, N, O>(row: Record<D, N, O>, headers: seq<string>, f: Formats<D, N, O>): string {
    Join(Cells(row, headers, f), ",")
  }

  /** One data line per record. */
  function DataLines<D, N, O>(rows: seq<Record<D, N, O>>, headers: seq<string>, f: Formats<D, N, O>): seq<string> {
    seq(|rows|, i requires 0 <= i < |rows| => DataLine(rows[i], headers, f))
  }

  function HeaderLine(headers: seq<string>): string {
    Join(headers, ",")
  }

  /**
   * `downloadCsv`'s document: nothing for an empty row list or a first
   * record without keys, otherwise the header line and one data line per
   * record, joined by LF.
   */
  function CsvContent<D, N, O>(rows: seq<Record<D, N, O>>, f: Formats<D, N, O>): (r: Option<string>)
    ensures r.None? <==> rows == [] || Keys(rows[0]) == []
  {
    if rows == [] then None
    else
      var headers := Keys(rows[0]);
      if headers == [] then None
      else Some(Join([HeaderLine(headers)] + DataLines(rows, headers, f), "\n"))
  }

  // ---------------------------------------------------------------------
  // A reader for quoted fields (RFC 4180, section 2, rules 5-7)
  // ---------------------------------------------------------------------

  /**
   * Reads a quoted field after its opening quote: its text, with each `""`
   * read as `"`, and what follows its closing quote.
   */
  function ReadQuoted(s: string): (r: Option<(string, string)>)
    ensures r.Some? ==> |r.value.1| < |s|
  {
    if s == [] then None
    else if s[0] == '"' then
      if |s| >= 2 && s[1] == '"' then
        match ReadQuoted(s[2..])
        case None => None
        case Some((t, rest)) => Some(("\"" + t, rest))
      else Some(([], s[1..]))
    else
      match ReadQuoted(s[1..])
      case None => None
      case Some((t, rest)) => Some(([s[0]] + t, rest))
  }

  /** Reads a line of comma-separated quoted fields. */
  function ParseLine(s: string): Option<seq<string>>
    decreases |s|
  {
    if s == [] || s[0] != '"' then None
    else
      match ReadQuoted(s[1..])
      case None => None
      case Some((t, rest)) =>
        if rest == [] then Some([t])
        else if rest[0] != ',' then None
        else
          match ParseLine(rest[1..])
          case None => None
          case Some(ts) => Some([t] + ts)
  }

  /** A field's escaped text followed by the closing quote reads back as the text. */
  lemma {:induction false} ReadEscaped(t: string, tail: string)
    requires tail == [] || tail[0] != '"'
    ensures ReadQuoted(EscapeQuotes(t) + "\"" + tail) == Some((t, tail))
  {
    var s := EscapeQuotes(t) + "\"" + tail;
    if t == [] {
      assert s == "\"" + tail;
      assert s[1..] == tail;
    } else {
      ReadEscaped(t[1..], tail);
      if t[0] == '"' {
        assert s == "\"\"" + (EscapeQuotes(t[1..]) + "\"" + tail);
        assert s[2..] == EscapeQuotes(t[1..]) + "\"" + tail;
      } else {
        assert s == [t[0]] + (EscapeQuotes(t[1..]) + "\"" + tail);
        assert s[1..] == EscapeQuotes(t[1..]) + "\"" + tail;
      }
      assert [t[0]] + t[1..] == t;
    }
  }

  function QuotedCell(t: string): string {
    "\"" + EscapeQuotes(t) + "\""
  }

  /** A line of quoted, escaped cells reads back as the original texts. */
  lemma {:induction false} ParseQuotedCells(texts: seq<string>)
    requires texts != []
    ensures ParseLine(Join(seq(|texts|, i requires 0 <= i < |texts| => QuotedCell(texts[i])), ",")) == Some(texts)
  {
    var cells := seq(|texts|, i requires 0 <= i < |texts| => QuotedCell(texts[i]));
    var line := Join(cells, ",");
    var rest := if |texts| == 1 then [] else "," + Join(cells[1..], ",");
    assert line == "\"" + (EscapeQuotes(texts[0]) + "\"" + rest);
    assert line[1..] == EscapeQuotes(texts[0]) + "\"" + rest;
    ReadEscaped(texts[0], rest);
    assert ReadQuoted(line[1..]) == Some((texts[0], rest));
    assert line != [] && line[0] == '"';
    if |texts| == 1 {
      assert ParseLine(line) == Some([texts[0]]);
      assert [texts[0]] == texts;
    } else {
      assert cells[1..] == seq(|texts[1..]|, i requires 0 <= i < |texts[1..]| => QuotedCell(texts[1..][i]));
      ParseQuotedCells(texts[1..]);
      assert rest[1..] == Join(cells[1..], ",");
      assert ParseLine(rest[1..]) == Some(texts[1..]);
      assert rest != [] && rest[0] == ',';
      assert ParseLine(line) == Some([texts[0]] + texts[1..]);
      assert [texts[0]] + texts[1..] == texts;
    }
  }

  /** The texts a reader recovers from a record's line. */
  function RowTexts<D, N, O>(row: Record<D, N, O>, headers: seq<string>, f: Formats<D, N, O>): seq<string> {
    seq(|headers|, i requires 0 <= i < |headers| => CellText(Get(row, headers[i]), f))
  }

  /**
   * A data line has exactly one quoted cell per header key, and reading it
   * back recovers each value's text, embedded commas and quotes included.
   */
  lemma DataLineRoundTrip<D(!new), N(!new), O>(row: Record<D, N, O>, headers: seq<string>, f: Formats<D, N, O>)
    requires headers != [] && QuoteFreeFormats(f)
    ensures ParseLine(DataLine(row, headers, f)) == Some(RowTexts(row, headers, f))
  {
    var texts := RowTexts(row, headers, f);
    forall i | 0 <= i < |headers| ensures Cells(row, headers, f)[i] == QuotedCell(texts[i]) {
      EscapeValueEscapesText(Get(row, headers[i]), f);
    }
    assert Cells(row, headers, f) == seq(|texts|, i requires 0 <= i < |texts| => QuotedCell(texts[i]));
    ParseQuotedCells(texts);
  }

  /** A data line contains no line feed when none of its texts does. */
  lemma DataLineSingleLine<D(!new), N(!new), O>(row: Record<D, N, O>, headers: seq<string>, f: Formats<D, N, O>)
    requires QuoteFreeFormats(f)
    requires forall j :: 0 <= j < |headers| ==> '\n' !in CellText(Get(row, headers[j]), f)
    ensures '\n' !in DataLine(row, headers, f)
  {
    forall j | 0 <= j < |headers| ensures '\n' !in Cells(row, headers, f)[j] {
      var v := Get(row, headers[j]);
      EscapeValueEscapesText(v, f);
      EscapeKeepsOthers(CellText(v, f), '\n');
    }
    JoinAvoids(Cells(row, headers, f), ",", '\n');
  }

  /**
   * When no key holds `,` or LF and no value's text holds LF, the document
   * has `1 + |rows|` lines: the first record's keys, unquoted, and then one
   * line per record that reads back as its values under those keys.
   */
  lemma CsvStructure<D(!new), N(!new), O>(rows: seq<Record<D, N, O>>, f: Formats<D, N, O>)
    requires rows != [] && Keys(rows[0]) != [] && QuoteFreeFormats(f)
    requires forall j :: 0 <= j < |rows[0]| ==> ',' !in rows[0][j].0 && '\n' !in rows[0][j].0
    requires forall i, j :: 0 <= i < |rows| && 0 <= j < |rows[0]| ==> '\n' !in CellText(Get(rows[i], rows[0][j].0), f)
    ensures var lines := Split(CsvContent(rows, f).value, '\n');
      && |lines| == 1 + |rows|
      && Split(lines[0], ',') == Keys(rows[0])
      && forall i :: 0 <= i < |rows| ==> ParseLine(lines[i + 1]) == Some(RowTexts(rows[i], Keys(rows[0]), f))
  {
    var headers := Keys(rows[0]);
    DataLinesSingleLine(rows, headers, f);
    DataLinesRoundTrip(rows, headers, f);
    var all := [HeaderLine(headers)] + DataLines(rows, headers, f);
    JoinAvoids(headers, ",", '\n');
    assert forall i :: 0 <= i < |all| ==> '\n' !in all[i];
    SplitJoin(all, '\n');
    SplitJoin(headers, ',');
  }

  /** No data line contains a line feed when no value's text under a header does. */
  lemma DataLinesSingleLine<D(!new), N(!new), O>(rows: seq<Record<D, N, O>>, headers: seq<string>, f: Formats<D, N, O>)
    requires QuoteFreeFormats(f)
    requires forall i, j :: 0 <= i < |rows| && 0 <= j < |headers| ==> '\n' !in CellText(Get(rows[i], headers[j]), f)
    ensures forall i :: 0 <= i < |rows| ==> '\n' !in DataLines(rows, headers, f)[i]
  {
    forall i | 0 <= i < |rows| ensures '\n' !in DataLines(rows, headers, f)[i] {
      DataLineSingleLine(rows[i], headers, f);
    }
  }

  /** Every data line reads back as its record's texts. */
  lemma DataLinesRoundTrip<D(!new), N(!new), O>(rows: seq<Record<D, N, O>>, headers: seq<string>, f: Formats<D, N, O>)
    requires headers != [] && QuoteFreeFormats(f)
    ensures forall i :: 0 <= i < |rows| ==> ParseLine(DataLines(rows, headers, f)[i]) == Some(RowTexts(rows[i], headers, f))
  {
    forall i | 0 <= i < |rows| ensures ParseLine(DataLines(rows, headers, f)[i]) == Some(RowTexts(rows[i], headers, f)) {
      DataLineRoundTrip(rows[i], headers, f);
    }
  }

  /** A header key the record lacks gives an empty quoted cell. */
  lemma {:induction false} MissingKeyEmptyCell<D, N, O>(row: Record<D, N, O>, key: string, f: Formats<D, N, O>)
    requires key !in Keys(row)
    ensures Cell(Get(row, key), f) == "\"\""
  {
    if row != [] {
      assert row[0].0 == Keys(row)[0];
      assert Keys(row[1..]) == Keys(row)[1..];
      MissingKeyEmptyCell(row[1..], key, f);
    }
  }

  /** Looking up any other key ignores a field inserted anywhere in a record. */
  lemma {:induction false} GetIgnoresOtherKey<D, N, O>(a: Record<D, N, O>, b: Record<D, N, O>, k: string, v: Value<D, N, O>, key: string)
    requires key != k
    ensures Get(a + [(k, v)] + b, key) == Get(a + b, key)
  {
    if a == [] {
      assert a + [(k, v)] + b == [(k, v)] + b;
      assert ([(k, v)] + b)[1..] == b;
      assert a + b == b;
    } else {
      assert (a + [(k, v)] + b)[1..] == a[1..] + [(k, v)] + b;
      assert (a + b)[1..] == a[1..] + b;
      GetIgnoresOtherKey(a[1..], b, k, v, key);
    }
  }

  /**
   * A field whose key is not a header key does not show in the record's
   * line, wherever it sits in the record's key order.
   */
  lemma ExtraKeyDropped<D, N, O>(a: Record<D, N, O>, b: Record<D, N, O>, headers: seq<string>, k: string, v: Value<D, N, O>, f: Formats<D, N, O>)
    requires k !in headers
    ensures DataLine(a + [(k, v)] + b, headers, f) == DataLine(a + b, headers, f)
  {
    forall i | 0 <= i < |headers| ensures Cells(a + [(k, v)] + b, headers, f)[i] == Cells(a + b, headers, f)[i] {
      GetIgnoresOtherKey(a, b, k, v, headers[i]);
    }
    assert Cells(a + [(k, v)] + b, headers, f) == Cells(a + b, headers, f);
  }
}
