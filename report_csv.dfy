/**
 * The low-stock report export: the components are written as CSV with a
 * fixed header line, one record per component, every field enclosed in
 * double quotes with embedded quotes doubled (section 2, rules 5 to 7, of
 * RFC 4180). Records are separated by a bare line feed rather than the CRLF
 * of rule 1, and no line break follows the last record.
 *
 * A reader for exactly this shape is defined alongside, and the export is
 * proved to be read back as the fields it was written from.
 */
module ReportCsv {
  import opened Wrappers
  import opened Text

  /** A property value of a component as the report sees it. */
  datatype Cell = Str(s: string) | Num(n: int) | Null

  /** A component object: its properties by name; a missing key reads as `undefined`. */
  type Record = map<string, Cell>

  /** The columns of the report, in order. */
  const Headers: seq<string> := ["name", "category", "quantity", "minStockLevel", "location", "description"]

  /** `String(component[field] ?? "")`. */
  function CellText(r: Record, field: string): string {
    if field !in r then ""
    else match r[field]
      case Str(s) => s
      case Num(n) => IntToString(n)
      case Null => ""
  }

  /** The texts of the report's columns for one record. */
  function Fields(r: Record): (fs: seq<string>)
    ensures |fs| == |Headers|
    ensures forall i :: 0 <= i < |Headers| ==> fs[i] == CellText(r, Headers[i])
  {
    seq(|Headers|, i requires 0 <= i < |Headers| => CellText(r, Headers[i]))
  }

  /** `s.replace(/"/g, '""')`. */
  function Escape(s: string): string {
    if s == [] then "" else (if s[0] == '"' then "\"\"" else [s[0]]) + Escape(s[1..])
  }

  /** A field enclosed in double quotes. */
  function Quote(s: string): string {
    "\"" + Escape(s) + "\""
  }

  function QuoteAll(fs: seq<string>): (qs: seq<string>)
    ensures |qs| == |fs|
  {
    if fs == [] then [] else [Quote(fs[0])] + QuoteAll(fs[1..])
  }

  /** `Array.prototype.join(sep)`. */
  function Join(xs: seq<string>, sep: string): string {
    if xs == [] then ""
    else if |xs| == 1 then xs[0]
    else xs[0] + sep + Join(xs[1..], sep)
  }

  /** `headers.join(",")`. */
  function HeaderLine(): string {
    Join(Headers, ",")
  }

  /** One record's line. */
  function Line(r: Record): string {
    Join(QuoteAll(Fields(r)), ",")
  }

  function Lines(rows: seq<Record>): (ls: seq<string>)
    ensures |ls| == |rows|
  {
    if rows == [] then [] else [Line(rows[0])] + Lines(rows[1..])
  }

  /** `csvContent`: nothing for no components, else the header line and one line per component. */
  function Csv(rows: seq<Record>): string {
    if |rows| == 0 then "" else Join([HeaderLine()] + Lines(rows), "\n")
  }

  // ---- Reading the report back --------------------------------------------

  /**
   * The rest of a quoted field after its opening quote: `""` stands for one
   * quote and a lone quote closes the field. Yields the field's text and
   * what follows the closing quote.
   */
  function Unquote(s: string): (r: Option<(string, string)>)
    ensures r.Some? ==> |r.value.1| < |s|
  {
    if s == [] then None
    else if s[0] == '"' then
      if |s| >= 2 && s[1] == '"' then
        match Unquote(s[2..])
        case None => None
        case Some((f, rest)) => Some(("\"" + f, rest))
      else Some(("", s[1..]))
    else
      match Unquote(s[1..])
      case None => None
      case Some((f, rest)) => Some(([s[0]] + f, rest))
  }

  /** `n` comma-separated quoted fields at the start of `s`, and what follows them. */
  function ParseFields(s: string, n: nat): (r: Option<(seq<string>, string)>)
    requires n >= 1
    ensures r.Some? ==> |r.value.0| == n && |r.value.1| < |s|
    decreases n
  {
    if s == [] || s[0] != '"' then None
    else
      match Unquote(s[1..])
      case None => None
      case Some((f, rest)) =>
        if n == 1 then Some(([f], rest))
        else if rest != [] && rest[0] == ',' then
          match ParseFields(rest[1..], n - 1)
          case None => None
          case Some((fs, after)) => Some(([f] + fs, after))
        else None
  }

  /** Records, each introduced by a line feed, up to the end of the text. */
  function ParseRecords(s: string): Option<seq<seq<string>>>
    decreases |s|
  {
    if s == [] then Some([])
    else if s[0] != '\n' then None
    else
      match ParseFields(s[1..], |Headers|)
      case None => None
      case Some((fs, rest)) =>
        match ParseRecords(rest)
        case None => None
        case Some(more) => Some([fs] + more)
  }

  /** Reads a report: empty, or the header line followed by the records. */
  function Decode(text: string): Option<seq<seq<string>>> {
    var h := HeaderLine();
    if text == "" then Some([])
    else if |h| <= |text| && text[..|h|] == h then ParseRecords(text[|h|..])
    else None
  }

  /** The field texts of every record, in order. */
  function AllFields(rows: seq<Record>): (fss: seq<seq<string>>)
    ensures |fss| == |rows|
  {
    if rows == [] then [] else [Fields(rows[0])] + AllFields(rows[1..])
  }

  // ---- Properties ---------------------------------------------------------

  /** Un-doubling the quotes of an escaped field recovers it, up to its closing quote. */
  lemma {:induction false} UnquoteEscape(x: string, rest: string)
    requires rest == [] || rest[0] != '"'
    ensures Unquote(Escape(x) + "\"" + rest) == Some((x, rest))
  {
    var s := Escape(x) + "\"" + rest;
    if x == [] {
      assert s == "\"" + rest;
      assert s[1..] == rest;
    } else {
      UnquoteEscape(x[1..], rest);
      var tail := Escape(x[1..]) + "\"" + rest;
      if x[0] == '"' {
        assert s == "\"\"" + tail;
        assert s[2..] == tail;
        assert "\"" + x[1..] == x;
      } else {
        assert s == [x[0]] + tail;
        assert s[1..] == tail;
        assert [x[0]] + x[1..] == x;
      }
    }
  }

  /** A quoted field followed by anything but a quote reads back as the field. */
  lemma ReadQuoted(f: string, after: string)
    requires after == [] || after[0] != '"'
    ensures var s := Quote(f) + after; s != [] && s[0] == '"' && Unquote(s[1..]) == Some((f, after))
  {
    var s := Quote(f) + after;
    assert s[1..] == Escape(f) + "\"" + after;
    UnquoteEscape(f, after);
  }

  /** A quoted field, a comma and `n - 1` more fields read back as `n` fields. */
  lemma ParseFieldsCons(f: string, more: string, n: nat, fs: seq<string>, rest: string)
    requires n >= 2
    requires ParseFields(more, n - 1) == Some((fs, rest))
    ensures ParseFields(Quote(f) + "," + more, n) == Some(([f] + fs, rest))
  {
    var after := "," + more;
    assert Quote(f) + "," + more == Quote(f) + after;
    ReadQuoted(f, after);
    assert after[1..] == more;
  }

  /** A quoted line of two or more fields is the first quoted field, a comma and the quoted rest. */
  lemma JoinQuotedCons(fs: seq<string>)
    requires |fs| >= 2
    ensures Join(QuoteAll(fs), ",") == Quote(fs[0]) + "," + Join(QuoteAll(fs[1..]), ",")
  {
    assert QuoteAll(fs)[1..] == QuoteAll(fs[1..]);
  }

  /** A quoted, comma-joined line reads back as its fields. */
  lemma {:induction false} ParseFieldsQuoted(fs: seq<string>, rest: string)
    requires |fs| >= 1
    requires rest == [] || rest[0] == '\n'
    ensures ParseFields(Join(QuoteAll(fs), ",") + rest, |fs|) == Some((fs, rest))
  {
    if |fs| == 1 {
      assert Join(QuoteAll(fs), ",") + rest == Quote(fs[0]) + rest;
      ReadQuoted(fs[0], rest);
      assert [fs[0]] == fs;
    } else {
      var tail := Join(QuoteAll(fs[1..]), ",");
      calc {
        ParseFields(Join(QuoteAll(fs), ",") + rest, |fs|);
      == { JoinQuotedCons(fs);
           assert Join(QuoteAll(fs), ",") + rest == Quote(fs[0]) + "," + (tail + rest); }
        ParseFields(Quote(fs[0]) + "," + (tail + rest), |fs|);
      == { ParseFieldsQuoted(fs[1..], rest);
           ParseFieldsCons(fs[0], tail + rest, |fs|, fs[1..], rest); }
        Some(([fs[0]] + fs[1..], rest));
      == { assert [fs[0]] + fs[1..] == fs; }
        Some((fs, rest));
      }
    }
  }

  /** The lines of `ls`, each preceded by `sep`. */
  function Prefixed(ls: seq<string>, sep: string): string {
    if ls == [] then "" else sep + ls[0] + Prefixed(ls[1..], sep)
  }

  /** Joining a first element with more is that element followed by the others, each after the separator. */
  lemma {:induction false} JoinPrefixed(h: string, ls: seq<string>, sep: string)
    ensures Join([h] + ls, sep) == h + Prefixed(ls, sep)
    decreases |ls|
  {
    if ls != [] {
      JoinPrefixed(ls[0], ls[1..], sep);
      assert ([h] + ls)[1..] == [ls[0]] + ls[1..] == ls;
    } else {
      assert [h] + ls == [h];
    }
  }

  lemma {:induction false} ParseRecordsLines(rows: seq<Record>)
    ensures ParseRecords(Prefixed(Lines(rows), "\n")) == Some(AllFields(rows))
  {
    if rows != [] {
      var ls := Lines(rows);
      assert ls[1..] == Lines(rows[1..]);
      var more := Prefixed(Lines(rows[1..]), "\n");
      var s := Prefixed(ls, "\n");
      assert s == "\n" + (Line(rows[0]) + more);
      assert s[1..] == Line(rows[0]) + more;
      ParseFieldsQuoted(Fields(rows[0]), more);
      ParseRecordsLines(rows[1..]);
    }
  }

  /** The header line is the six column names separated by commas. */
  lemma HeaderLineText()
    ensures HeaderLine() == "name" + "," + "category" + "," + "quantity" + "," + "minStockLevel" + "," + "location" + "," + "description"
  {
    var h := Headers;
    assert h[1..] == ["category", "quantity", "minStockLevel", "location", "description"];
    assert h[1..][1..] == ["quantity", "minStockLevel", "location", "description"];
    assert h[1..][1..][1..] == ["minStockLevel", "location", "description"];
    assert h[1..][1..][1..][1..] == ["location", "description"];
    assert h[1..][1..][1..][1..][1..] == ["description"];
  }

  /**
   * The report reads back as the field texts of the components it was
   * written from, in order: one record per component, six fields each.
   */
  lemma DecodeCsv(rows: seq<Record>)
    ensures Decode(Csv(rows)) == Some(AllFields(rows))
  {
    if rows != [] {
      var h := HeaderLine();
      HeaderLineText();
      JoinPrefixed(h, Lines(rows), "\n");
      var text := Csv(rows);
      assert text == h + Prefixed(Lines(rows), "\n");
      assert text[..|h|] == h && text[|h|..] == Prefixed(Lines(rows), "\n");
      ParseRecordsLines(rows);
    }
  }

  /** No components give the empty text, and only they do. */
  lemma CsvEmpty(rows: seq<Record>)
    ensures Csv(rows) == "" <==> rows == []
  {
    if rows != [] {
      HeaderLineText();
      JoinPrefixed(HeaderLine(), Lines(rows), "\n");
    }
  }

  /** A non-empty report starts with the header line, then a line feed before the first record. */
  lemma CsvStartsWithHeader(rows: seq<Record>)
    requires rows != []
    ensures var h := HeaderLine(); |h| < |Csv(rows)| && Csv(rows)[..|h|] == h && Csv(rows)[|h|] == '\n'
  {
    var h := HeaderLine();
    JoinPrefixed(h, Lines(rows), "\n");
    assert Csv(rows) == h + ("\n" + Line(rows[0]) + Prefixed(Lines(rows)[1..], "\n"));
  }

  /** Different component data give different reports: the export loses no field text. */
  lemma CsvInjective(a: seq<Record>, b: seq<Record>)
    requires Csv(a) == Csv(b)
    ensures AllFields(a) == AllFields(b)
  {
    DecodeCsv(a);
    DecodeCsv(b);
  }

  /** A null or missing property is written as an empty quoted field. */
  lemma AbsentCellQuoted(r: Record, field: string)
    requires field !in r || r[field] == Null
    ensures Quote(CellText(r, field)) == "\"\""
  {
  }
}
