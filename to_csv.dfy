/** to_csv.rb: re-emits each `code|url` line as the CSV row
    `url,code,,` ended by CRLF, quoting a field as section 2 (rules 6 and 7)
    of RFC 4180 describes. */
module ToCsv {
  import opened Wrappers
  import opened RubyText

  /** The condition of `escape`: a comma, a double quote, or a CRLF pair.  A
      lone CR or LF does not count. */
  predicate NeedsQuotes(data: string) {
    ',' in data || '"' in data || ContainsCrlf(data)
  }

  /** `data.gsub('"', '""')`. */
  function DoubleQuotes(data: string): (r: string)
    ensures |r| >= |data|
  {
    if |data| == 0 then ""
    else (if data[0] == '"' then "\"\"" else [data[0]]) + DoubleQuotes(data[1..])
  }

  /** `escape`. */
  function Escape(data: string): (r: string)
    ensures !NeedsQuotes(data) ==> r == data
    ensures NeedsQuotes(data) ==> |r| >= 2 && r[0] == '"' && r[|r| - 1] == '"'
  {
    if NeedsQuotes(data) then "\"" + DoubleQuotes(data) + "\"" else data
  }

  // ---------------------------------------------------------------------------
  // Reading a field back

  /** The body of a quoted field up to its closing quote: a doubled quote
      stands for one quote, a single quote closes the field.  The text and
      the number of characters read, the closing quote included; None when
      the closing quote is missing. */
  function QuotedBody(s: string): (r: Option<(string, nat)>)
    ensures r.Some? ==> 0 < r.value.1 <= |s|
    decreases |s|
  {
    if |s| == 0 then None
    else if s[0] == '"' then
      if |s| >= 2 && s[1] == '"' then
        match QuotedBody(s[2..])
        case None => None
        case Some((t, n)) => Some(("\"" + t, n + 2))
      else Some(("", 1))
    else
      match QuotedBody(s[1..])
      case None => None
      case Some((t, n)) => Some(([s[0]] + t, n + 1))
  }

  /** An unquoted field: everything up to the next comma or CRLF. */
  function PlainField(s: string): (n: nat)
    ensures n <= |s|
  {
    if |s| == 0 || s[0] == ',' || (|s| >= 2 && s[0] == '\r' && s[1] == '\n') then 0
    else 1 + PlainField(s[1..])
  }

  /** One field of a CSV record and the number of characters it takes. */
  function Field(s: string): (r: Option<(string, nat)>)
    ensures r.Some? ==> r.value.1 <= |s|
  {
    if |s| > 0 && s[0] == '"' then
      match QuotedBody(s[1..])
      case None => None
      case Some((t, n)) => Some((t, n + 1))
    else
      var n := PlainField(s);
      Some((s[..n], n))
  }

  /** A record of `k` fields separated by commas and ended by CRLF, as
      section 2 of RFC 4180 describes it. */
  function Record(s: string, k: nat): (r: Option<seq<string>>)
    requires k > 0
    ensures r.Some? ==> |r.value| == k
    decreases k
  {
    match Field(s)
    case None => None
    case Some((f, n)) =>
      var rest := s[n..];
      if k == 1 then
        (if rest == "\r\n" then Some([f]) else None)
      else if |rest| > 0 && rest[0] == ',' then
        match Record(rest[1..], k - 1)
        case None => None
        case Some(fs) => Some([f] + fs)
      else None
  }

  /** A quoted body reads back, the closing quote included. */
  lemma {:induction false} QuotedBodyRoundTrip(data: string, rest: string)
    requires |rest| == 0 || rest[0] != '"'
    ensures QuotedBody(DoubleQuotes(data) + "\"" + rest) == Some((data, |DoubleQuotes(data)| + 1))
    decreases |data|
  {
    if |data| == 0 {
      assert DoubleQuotes(data) + "\"" + rest == "\"" + rest;
      QuotedBodyCloses(rest);
    } else {
      var tail := DoubleQuotes(data[1..]) + "\"" + rest;
      QuotedBodyRoundTrip(data[1..], rest);
      var head := if data[0] == '"' then "\"\"" else [data[0]];
      assert DoubleQuotes(data) == head + DoubleQuotes(data[1..]);
      Regroup(head, DoubleQuotes(data[1..]), "\"", rest);
      if data[0] == '"' {
        QuotedBodyDoubled(tail);
      } else {
        QuotedBodyPlain(data[0], tail);
      }
      assert [data[0]] + data[1..] == data;
    }
  }

  lemma Regroup(a: string, b: string, c: string, d: string)
    ensures (a + b) + c + d == a + (b + c + d)
  {
  }

  /** A single quote closes the body. */
  lemma QuotedBodyCloses(rest: string)
    requires |rest| == 0 || rest[0] != '"'
    ensures QuotedBody("\"" + rest) == Some(("", 1))
  {
    var s := "\"" + rest;
    if |rest| > 0 {
      assert s[1] == rest[0];
    }
  }

  /** A doubled quote stands for one quote. */
  lemma QuotedBodyDoubled(t: string)
    ensures QuotedBody("\"\"" + t) ==
      match QuotedBody(t)
      case None => None
      case Some((x, n)) => Some(("\"" + x, n + 2))
  {
    var s := "\"\"" + t;
    assert s[0] == '"' && s[1] == '"' && s[2..] == t;
  }

  /** Any other character stands for itself. */
  lemma QuotedBodyPlain(ch: char, t: string)
    requires ch != '"'
    ensures QuotedBody([ch] + t) ==
      match QuotedBody(t)
      case None => None
      case Some((x, n)) => Some(([ch] + x, n + 1))
  {
    var s := [ch] + t;
    assert s[0] == ch && s[1..] == t;
  }

  /** An unquoted field stops at the comma after it. */
  lemma {:induction false} PlainFieldStops(data: string, rest: string)
    requires !NeedsQuotes(data)
    requires |rest| > 0 && (rest[0] == ',' || (|rest| >= 2 && rest[0] == '\r' && rest[1] == '\n'))
    ensures PlainField(data + rest) == |data|
    decreases |data|
  {
    if |data| > 0 {
      assert (data + rest)[1..] == data[1..] + rest;
      assert !ContainsCrlf(data[1..]) by {
        forall i | 0 <= i < |data[1..]| - 1
          ensures !(data[1..][i] == '\r' && data[1..][i + 1] == '\n')
        {
          assert data[1..][i] == data[i + 1] && data[1..][i + 1] == data[i + 2];
        }
      }
      assert '"' !in data[1..] && ',' !in data[1..];
      PlainFieldStops(data[1..], rest);
      if |data| >= 2 {
        assert (data + rest)[1] == data[1];
        assert !(data[0] == '\r' && data[1] == '\n');
      } else {
        assert (data + rest)[1] == rest[0];
      }
    }
  }

  /** A quoted field reads back as the original text. */
  lemma QuotedFieldRoundTrip(data: string, rest: string)
    requires NeedsQuotes(data)
    requires |rest| == 0 || rest[0] != '"'
    ensures Field(Escape(data) + rest) == Some((data, |Escape(data)|))
  {
    var body := DoubleQuotes(data) + "\"" + rest;
    assert Escape(data) == "\"" + DoubleQuotes(data) + "\"";
    Regroup("\"", DoubleQuotes(data), "\"", rest);
    QuotedBodyRoundTrip(data, rest);
    FieldQuoted(body);
  }

  /** A field that starts with a quote is read as a quoted body. */
  lemma FieldQuoted(body: string)
    ensures Field("\"" + body) ==
      match QuotedBody(body)
      case None => None
      case Some((t, n)) => Some((t, n + 1))
  {
    var s := "\"" + body;
    assert s[0] == '"' && s[1..] == body;
  }

  /** An unquoted field followed by a comma or CRLF reads back as it is. */
  lemma PlainFieldRoundTrip(data: string, rest: string)
    requires !NeedsQuotes(data)
    requires |rest| > 0 && (rest[0] == ',' || (|rest| >= 2 && rest[0] == '\r' && rest[1] == '\n'))
    ensures Field(Escape(data) + rest) == Some((data, |Escape(data)|))
  {
    var s := data + rest;
    PlainFieldStops(data, rest);
    if |data| > 0 {
      assert s[0] == data[0] && data[0] != '"';
    } else {
      assert s[0] == rest[0];
    }
    assert s[..|data|] == data;
  }

  /** An escaped field followed by a comma or CRLF reads back as the
      original text, and takes exactly the escaped characters. */
  lemma FieldRoundTrip(data: string, rest: string)
    requires |rest| > 0 && (rest[0] == ',' || (|rest| >= 2 && rest[0] == '\r' && rest[1] == '\n'))
    ensures Field(Escape(data) + rest) == Some((data, |Escape(data)|))
  {
    if NeedsQuotes(data) {
      QuotedFieldRoundTrip(data, rest);
    } else {
      PlainFieldRoundTrip(data, rest);
    }
  }

  /** The row written for a code and url. */
  function Row(code: string, url: string): string {
    Escape(url) + ("," + (Escape(code) + ",,\r\n"))
  }

  /** A record is its first field, a comma, and the remaining fields. */
  lemma RecordCons(s: string, k: nat, f: string, t: string, fs: seq<string>)
    requires k > 1 && s == f + ("," + t)
    requires Field(s).Some? && Field(s).value.1 == |f|
    requires Record(t, k - 1) == Some(fs)
    ensures Record(s, k) == Some([Field(s).value.0] + fs)
  {
    assert s[|f|..] == "," + t && ("," + t)[1..] == t;
  }

  /** The two empty fields that end every row. */
  lemma EmptyTail()
    ensures Record(",\r\n", 2) == Some(["", ""])
  {
    var r2 := ",\r\n";
    var r3 := "\r\n";
    assert r2[0] == ',' && PlainField(r2) == 0 && r2[..0] == "";
    assert Field(r2) == Some(("", 0));
    assert r2[0..] == r2 && r2[1..] == r3;
    assert r3[0] == '\r' && r3[1] == '\n' && PlainField(r3) == 0 && r3[..0] == "";
    assert Field(r3) == Some(("", 0));
    assert r3[0..] == r3;
    assert Record(r3, 1) == Some([""]);
    assert [""] + [""] == ["", ""];
  }

  /** An escaped field, a comma and a record of `k - 1` fields make a record
      of `k` fields. */
  lemma FieldThenRecord(data: string, t: string, k: nat, fs: seq<string>, l: seq<string>)
    requires k > 1 && Record(t, k - 1) == Some(fs) && l == [data] + fs
    ensures Record(Escape(data) + ("," + t), k) == Some(l)
  {
    var rest := "," + t;
    assert rest[0] == ',';
    FieldRoundTrip(data, rest);
    RecordCons(Escape(data) + rest, k, Escape(data), t, fs);
  }

  lemma CodeTailAt(code: string, s: string, k: nat)
    requires k == 3 && s == Escape(code) + ("," + ",\r\n")
    ensures Record(s, k) == Some([code, "", ""])
  {
    assert [code] + ["", ""] == [code, "", ""];
    EmptyTail();
    FieldThenRecord(code, ",\r\n", k, ["", ""], [code, "", ""]);
  }

  /** The code field and the two empty fields read back as a record. */
  lemma CodeTail(code: string)
    ensures Record(Escape(code) + ",,\r\n", 3) == Some([code, "", ""])
  {
    CodeTailAt(code, Escape(code) + ",,\r\n", 3);
  }

  lemma RowAt(code: string, url: string, t: string, r: string, k: nat)
    requires k == 4 && t == Escape(code) + ",,\r\n" && r == Escape(url) + ("," + t)
    ensures Record(r, k) == Some([url, code, "", ""])
  {
    var fs := [code, "", ""];
    assert [url] + fs == [url, code, "", ""];
    CodeTail(code);
    FieldThenRecord(url, t, k, fs, [url, code, "", ""]);
  }

  /** Every row reads back, as a four-field CSV record, into the url, the
      code and two empty fields. */
  lemma RowRoundTrip(code: string, url: string)
    ensures Record(Row(code, url), 4) == Some([url, code, "", ""])
  {
    RowAt(code, url, Escape(code) + ",,\r\n", Row(code, url), 4);
  }

  /** A field without a comma, a quote or a CRLF pair is written as it is;
      a lone CR or LF does not force quotes. */
  lemma LoneBreaksUnquoted()
    ensures Escape("a\rb") == "a\rb" && Escape("a\nb") == "a\nb"
    ensures Escape("a\r\nb") == "\"a\r\nb\""
  {
    LoneBreakUnquoted("a\rb");
    LoneBreakUnquoted("a\nb");
    CrlfQuoted("a\r\nb");
  }

  lemma LoneBreakUnquoted(s: string)
    requires s == "a\rb" || s == "a\nb"
    ensures Escape(s) == s
  {
    assert !ContainsCrlf(s);
  }

  lemma CrlfQuoted(s: string)
    requires s == "a\r\nb"
    ensures Escape(s) == "\"" + s + "\""
  {
    assert s[1] == '\r' && s[2] == '\n';
    NoQuotesKept(s);
  }

  /** Without a quote there is nothing to double. */
  lemma {:induction false} NoQuotesKept(data: string)
    requires '"' !in data
    ensures DoubleQuotes(data) == data
  {
    if |data| > 0 {
      assert '"' !in data[1..];
      NoQuotesKept(data[1..]);
      assert data == [data[0]] + data[1..];
    }
  }

  // ---------------------------------------------------------------------------
  // The line loop

  /** What one line as `each_line` yields it becomes: nothing for a blank
      line, a row, or a crash when the line has no "|" (the url is nil and
      `nil.include?` raises NoMethodError). */
  datatype LineOut = Blank | Written(row: string) | NoMethod

  function ConvertLine(raw: string): (r: LineOut)
    ensures r == Blank <==> Chomp(raw) == ""
    ensures r == NoMethod <==> Chomp(raw) != "" && '|' !in Chomp(raw)
    ensures r.Written? ==> exists code, url :: Chomp(raw) == code + "|" + url && '|' !in code && r.row == Row(code, url)
  {
    var line := Chomp(raw);
    if line == "" then Blank
    else
      var (code, url) := SplitRecord(line);
      if url.None? then NoMethod
      else Written(Row(code, url.value))
  }

  /** The script over the lines of standard input: the rows written, and
      whether it died on a line without "|". */
  function ConvertLines(lines: seq<string>): (r: (string, bool))
  {
    if |lines| == 0 then ("", false)
    else
      match ConvertLine(lines[0])
      case Blank => ConvertLines(lines[1..])
      case NoMethod => ("", true)
      case Written(row) =>
        var t := ConvertLines(lines[1..]);
        (row + t.0, t.1)
  }

  /** The script on the whole of standard input. */
  function Convert(input: string): (string, bool) {
    ConvertLines(EachLine(input))
  }

  /** Every line that holds a "|" yields one row, blank lines none, and the
      script only dies on a non-blank line without "|". */
  lemma {:induction false} ConvertWhole(lines: seq<string>)
    requires forall i :: 0 <= i < |lines| ==> ConvertLine(lines[i]) != NoMethod
    ensures !ConvertLines(lines).1
    ensures ConvertLines(lines).0 == Concat(Rows(lines))
    decreases |lines|
  {
    if |lines| > 0 {
      var tail := Rows(lines[1..]);
      ConvertWhole(lines[1..]);
      assert ConvertLine(lines[0]) != NoMethod;
      match ConvertLine(lines[0])
      case Blank =>
        assert Rows(lines) == [] + tail == tail;
      case Written(row) =>
        assert Rows(lines) == [row] + tail;
        assert ([row] + tail)[1..] == tail;
        assert Concat([row] + tail) == row + Concat(tail);
    }
  }

  /** The rows of the lines that are not blank. */
  function Rows(lines: seq<string>): seq<string> {
    if |lines| == 0 then []
    else (if ConvertLine(lines[0]).Written? then [ConvertLine(lines[0]).row] else []) + Rows(lines[1..])
  }
}
