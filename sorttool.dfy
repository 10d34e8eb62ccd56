/** src/sort.c: the tool that sorts a `code|url` file whose records are at
    most MAX_DISTANCE places away from their sorted position. */
module SortTool {
  import opened Wrappers
  import opened ShortUrl

  const MaxDistance := 2000000

  function Min(a: nat, b: nat): nat {
    if a <= b then a else b
  }

  /** `g_strndup(s, strlen(s) - 1)`: the url loses its last byte, the newline
      of a complete line (and a real url byte on a last line without one).
      On an empty rest the unsigned length wraps around to G_MAXSIZE,
      `g_new` is asked for G_MAXSIZE + 1 == 0 bytes and returns NULL, and
      the copy into it writes through NULL: None is that crash. */
  function Strndup(s: seq<Byte>): (r: Option<seq<Byte>>)
    ensures r.None? <==> |s| == 0
    ensures r.Some? ==> s == r.value + [s[|s| - 1]]
  {
    if |s| == 0 then None else Some(s[..|s| - 1])
  }

  /** A line with a valid code and nothing after its "|": `read_shorturls`
      dies in `g_strndup` on it. */
  predicate Crashes(line: seq<Byte>) {
    LineCode(line).Some? && |Split(line).value.1| == 0
  }

  /** The record `read_shorturls` builds from a line; None when the line
      ends the read, by its PARSE error or by the crash of an empty rest. */
  function LineRecord(line: seq<Byte>): (r: Option<Record>)
    ensures r.None? <==> LineCode(line).None? || Crashes(line)
    ensures r.Some? ==> r.value.code == LineCode(line).value
    ensures r.Some? ==> var rest := Split(line).value.1; |rest| > 0 && rest == r.value.url + [rest[|rest| - 1]]
  {
    match LineCode(line)
    case None => None
    case Some(code) =>
      match Strndup(Split(line).value.1)
      case None => None
      case Some(url) => Some(Record(code, url))
  }

  /** The line `write_file` prints for a record: `code|url` and a newline. */
  function FormatLine(r: Record): seq<Byte> {
    r.code + [Bar] + r.url + [Newline]
  }

  /** Reading back a printed record gives the record, when its code is a
      valid code and neither part holds a NUL. */
  lemma FormatParses(r: Record)
    requires |r.code| <= MaxCodeLength && Bar !in r.code
    requires 0 !in r.code && 0 !in r.url
    ensures LineRecord(FormatLine(r)) == Some(r)
  {
    var rest := r.url + [Newline];
    assert FormatLine(r) == r.code + [Bar] + rest;
    SplitJoined(r.code, rest);
    assert rest[..|rest| - 1] == r.url;
  }

  /** As written, a last line `a|` with no newline kills the program. */
  lemma EmptyRestCrashes()
    ensures Crashes([97, Bar]) && LineRecord([97, Bar]).None?
  {
    SplitJoined([97], []);
    assert [97, Bar] == [97] + [Bar] + [];
  }

  /** As written, a last line `a|xy` with no newline loses the `y` of its
      url. */
  lemma UnterminatedLosesByte()
    ensures LineRecord([97, Bar, 120, 121]) == Some(Record([97], [120]))
  {
    SplitJoined([97], [120, 121]);
    assert [97, Bar, 120, 121] == [97] + [Bar] + [120, 121];
    assert [120, 121][..1] == [120];
  }

  /** The url the line terminator was meant to be cut from: the rest without
      a final newline, if it has one. */
  function Unterminated(rest: seq<Byte>): (r: seq<Byte>)
    ensures |rest| > 0 && rest[|rest| - 1] == Newline ==> rest == r + [Newline]
    ensures Newline !in rest ==> r == rest
  {
    if |rest| > 0 && rest[|rest| - 1] == Newline then rest[..|rest| - 1] else rest
  }

  /** The record reading is evidently meant to build: only the newline is
      cut, and an empty rest is an empty url. */
  function IntendedRecord(line: seq<Byte>): (r: Option<Record>)
    ensures r.None? <==> LineCode(line).None?
    ensures r.Some? ==> r.value.code == LineCode(line).value
  {
    match LineCode(line)
    case None => None
    case Some(code) => Some(Record(code, Unterminated(Split(line).value.1)))
  }

  /** With the intended reading, a record reads back from its printed line,
      with or without the final newline, so the last line of a file need
      not end in one. */
  lemma IntendedReadsBack(r: Record)
    requires |r.code| <= MaxCodeLength && Bar !in r.code
    requires 0 !in r.code && 0 !in r.url && Newline !in r.url
    ensures IntendedRecord(FormatLine(r)) == Some(r)
    ensures IntendedRecord(r.code + [Bar] + r.url) == Some(r)
  {
    var rest := r.url + [Newline];
    assert FormatLine(r) == r.code + [Bar] + rest;
    SplitJoined(r.code, rest);
    SplitJoined(r.code, r.url);
  }

  /** The record of every line, None for a line that does not parse. */
  function Parsed(lines: seq<seq<Byte>>): (r: seq<Option<Record>>)
    ensures |r| == |lines|
  {
    if |lines| == 0 then [] else [LineRecord(lines[0])] + Parsed(lines[1..])
  }

  lemma {:induction false} ParsedAt(lines: seq<seq<Byte>>, i: nat)
    requires i < |lines|
    ensures Parsed(lines)[i] == LineRecord(lines[i])
  {
    if i > 0 {
      ParsedAt(lines[1..], i - 1);
    }
  }

  lemma {:induction false} ParsedSuffix(lines: seq<seq<Byte>>, c: nat)
    requires c <= |lines|
    ensures Parsed(lines[c..]) == Parsed(lines)[c..]
  {
    if c > 0 {
      assert lines[c..] == lines[1..][c - 1..];
      ParsedSuffix(lines[1..], c - 1);
    }
  }

  /** The number of leading records among the first `n` that are present. */
  function FirstBad(p: seq<Option<Record>>, n: nat): (k: nat)
    requires n <= |p|
    ensures k <= n
    ensures forall i :: 0 <= i < k ==> p[i].Some?
    ensures k < n ==> p[k].None?
    decreases n
  {
    if n == 0 then 0
    else
      var k := FirstBad(p, n - 1);
      if k < n - 1 || p[n - 1].None? then k else n
  }

  lemma FirstBadSticks(p: seq<Option<Record>>, k: nat, n: nat)
    requires k < n <= |p| && FirstBad(p, k) == k && p[k].None?
    ensures FirstBad(p, n) == k
    decreases n - k
  {
    if k + 1 < n {
      FirstBadSticks(p, k, n - 1);
    }
  }

  predicate AllSome(p: seq<Option<Record>>) {
    forall i :: 0 <= i < |p| ==> p[i].Some?
  }

  lemma {:induction false} FirstBadNone(p: seq<Option<Record>>, n: nat)
    requires n <= |p| && forall i :: 0 <= i < n ==> p[i].Some?
    ensures FirstBad(p, n) == n
  {
    if n > 0 {
      FirstBadNone(p, n - 1);
    }
  }

  /** Past a run of `c` present records the first absent one is found by
      looking at the rest. */
  lemma {:induction false} FirstBadShift(p: seq<Option<Record>>, c: nat, m: nat)
    requires c + m <= |p| && forall i :: 0 <= i < c ==> p[i].Some?
    ensures FirstBad(p, c + m) == c + FirstBad(p[c..], m)
  {
    if m == 0 {
      FirstBadNone(p, c);
    } else {
      FirstBadShift(p, c, m - 1);
      assert p[c + m - 1] == p[c..][m - 1];
    }
  }

  /** Looking at fewer records finds the same first absent one, or none. */
  lemma {:induction false} FirstBadPrefix(p: seq<Option<Record>>, m: nat, n: nat)
    requires m <= n <= |p|
    ensures FirstBad(p, m) == Min(FirstBad(p, n), m)
    decreases n
  {
    if m < n {
      FirstBadPrefix(p, m, n - 1);
    }
  }

  /** The position of the first line of the in-file that gives no record,
      or the number of lines. */
  ghost function FirstStop(lines: seq<seq<Byte>>): nat {
    FirstBad(Parsed(lines), |lines|)
  }

  /** The first line that gives no record is one the program dies on. */
  ghost predicate CrashesFirst(lines: seq<seq<Byte>>) {
    FirstStop(lines) < |lines| && Crashes(lines[FirstStop(lines)])
  }

  /** The records of lines that all parse. */
  function Values(p: seq<Option<Record>>): (r: seq<Record>)
    requires AllSome(p)
    ensures |r| == |p| && forall i :: 0 <= i < |p| ==> p[i] == Some(r[i])
  {
    seq(|p|, i requires 0 <= i < |p| => p[i].value)
  }

  lemma ValuesSnoc(p: seq<Option<Record>>, k: nat)
    requires k < |p| && AllSome(p[..k]) && p[k].Some?
    ensures AllSome(p[..k + 1]) && Values(p[..k + 1]) == Values(p[..k]) + [p[k].value]
  {
    assert p[..k + 1] == p[..k] + [p[k]];
  }

  lemma ValuesSplit(p: seq<Option<Record>>, a: nat, b: nat)
    requires a <= b <= |p| && AllSome(p[..b])
    ensures AllSome(p[..a]) && AllSome(p[a..b])
    ensures Values(p[..b]) == Values(p[..a]) + Values(p[a..b])
  {
    assert AllSome(p[..a]) by {
      forall i | 0 <= i < a ensures p[..a][i].Some? {
        assert p[..a][i] == p[..b][i];
      }
    }
    assert AllSome(p[a..b]) by {
      forall i | 0 <= i < b - a ensures p[a..b][i].Some? {
        assert p[a..b][i] == p[..b][a + i];
      }
    }
    var x, y, z := Values(p[..b]), Values(p[..a]), Values(p[a..b]);
    forall i | 0 <= i < b ensures x[i] == (y + z)[i] {
      if i < a {
        assert p[..b][i] == p[..a][i];
      } else {
        assert p[..b][i] == p[a..b][i - a];
      }
    }
    assert x == y + z;
  }

  // ---------------------------------------------------------------------------
  // g_array_sort with compare_shorturls

  predicate Sorted(s: seq<Record>) {
    forall i :: 0 < i < |s| ==> CompareShortUrls(s[i - 1], s[i]) <= 0
  }

  function Insert(x: Record, s: seq<Record>): (r: seq<Record>)
    ensures multiset(r) == multiset(s) + multiset{x}
    ensures |r| == |s| + 1 && (r[0] == x || (|s| > 0 && r[0] == s[0]))
  {
    if |s| == 0 || CompareShortUrls(x, s[0]) <= 0 then [x] + s
    else
      assert s == [s[0]] + s[1..];
      [s[0]] + Insert(x, s[1..])
  }

  lemma {:induction false} InsertSorted(x: Record, s: seq<Record>)
    requires Sorted(s)
    ensures Sorted(Insert(x, s))
  {
    if |s| > 0 && CompareShortUrls(x, s[0]) > 0 {
      CompareAntisymmetric(x.code, s[0].code);
      InsertSorted(x, s[1..]);
      var t := Insert(x, s[1..]);
      assert |s| > 1 && t[0] == s[1] ==> CompareShortUrls(s[0], t[0]) <= 0;
      assert Insert(x, s) == [s[0]] + t;
    }
  }

  /** The sorted order `g_array_sort` leaves the records in; records with
      equal codes may come in either order, this model fixes one. */
  function SortRecords(s: seq<Record>): (r: seq<Record>)
    ensures multiset(r) == multiset(s) && |r| == |s|
  {
    if |s| == 0 then []
    else
      assert s == [s[0]] + s[1..];
      Insert(s[0], SortRecords(s[1..]))
  }

  lemma {:induction false} SortRecordsSorted(s: seq<Record>)
    ensures Sorted(SortRecords(s))
  {
    if |s| > 0 {
      SortRecordsSorted(s[1..]);
      InsertSorted(s[0], SortRecords(s[1..]));
    }
  }

  lemma SortedConcat(a: seq<Record>, b: seq<Record>)
    requires Sorted(a) && Sorted(b)
    requires |a| > 0 && |b| > 0 ==> CompareShortUrls(a[|a| - 1], b[0]) <= 0
    ensures Sorted(a + b)
  {
  }

  lemma SortedSlices(s: seq<Record>, w: nat)
    requires Sorted(s) && w <= |s|
    ensures Sorted(s[..w]) && Sorted(s[w..])
  {
  }

  // ---------------------------------------------------------------------------
  // The state of sort.c's main

  /** What `read_shorturls(in, data, count)` does, from input `input` and
      buffer `data` to buffer `data'` and input `input'`: it consumes up to
      `count` lines and appends their records, but stops at the first line
      that does not parse, consumes it and fails. When that line
      `Crashes`, the program dies there (`crashed`). */
  ghost predicate Reads(input: seq<seq<Byte>>, count: nat, read: nat, failed: bool, crashed: bool,
                        data: seq<Record>, data': seq<Record>, input': seq<seq<Byte>>)
  {
    var p := Parsed(input); var n := Min(count, |p|); var k := FirstBad(p, n);
    && (failed <==> k < n)
    && (crashed <==> k < n && Crashes(input[k]))
    && read == (if failed then k + 1 else n)
    && AllSome(p[..k])
    && data' == data + Values(p[..k])
    && input' == input[read..]
  }

  /** After `k` lines of `input`, all of which parsed, `data'` is `data`
      with their records appended. */
  ghost predicate ReadSoFar(input: seq<seq<Byte>>, k: nat, data: seq<Record>, data': seq<Record>) {
    var p := Parsed(input);
    && k <= |p| && FirstBad(p, k) == k
    && AllSome(p[..k]) && data' == data + Values(p[..k])
  }

  /** One more line that parses: its record joins those read so far. */
  lemma ReadStep(input: seq<seq<Byte>>, k: nat, data: seq<Record>, data': seq<Record>)
    requires ReadSoFar(input, k, data, data') && k < |input| && LineRecord(input[k]).Some?
    ensures ReadSoFar(input, k + 1, data, data' + [LineRecord(input[k]).value])
  {
    ParsedAt(input, k);
    ValuesSnoc(Parsed(input), k);
  }

  /** Reading stops at a line that does not parse, the `k`-th. */
  lemma ReadsBad(input: seq<seq<Byte>>, count: nat, k: nat, data: seq<Record>, data': seq<Record>, crashed: bool)
    requires ReadSoFar(input, k, data, data') && k < Min(count, |input|) && LineRecord(input[k]).None?
    requires crashed == Crashes(input[k])
    ensures Reads(input, count, k + 1, true, crashed, data, data', input[k + 1..])
  {
    ParsedAt(input, k);
    FirstBadSticks(Parsed(input), k, Min(count, |input|));
  }

  /** Reading stops after `count` lines or at the end of the input, every
      line read having parsed. */
  lemma ReadsAll(input: seq<seq<Byte>>, count: nat, k: nat, data: seq<Record>, data': seq<Record>)
    requires ReadSoFar(input, k, data, data') && k == Min(count, |input|)
    ensures Reads(input, count, k, false, false, data, data', input[k..])
  {
  }

  class Sorter {
    /** The lines of the in-file not read yet. */
    var input: seq<seq<Byte>>
    /** The GArray of records read and not yet written. */
    var data: seq<Record>
    /** `last_code`: the code of the record written last. */
    var lastCode: seq<Byte>
    /** The records written to the out-file, in order. */
    var output: seq<Record>

    constructor (lines: seq<seq<Byte>>)
      ensures input == lines && data == [] && lastCode == [] && output == []
    {
      input := lines;
      data := [];
      lastCode := [];
      output := [];
    }

    /** `read_shorturls`: appends the records of up to `count` lines; stops
        early at the end of the input or at a line that does not parse, which
        is consumed and reported, or on which the program dies. */
    method ReadShortUrls(count: nat) returns (read: nat, failed: bool, crashed: bool)
      modifies this
      ensures Reads(old(input), count, read, failed, crashed, old(data), data, input)
      ensures lastCode == old(lastCode) && output == old(output)
    {
      ghost var lines := input;
      read := 0;
      while read < count
        invariant read <= Min(count, |lines|) && input == lines[read..]
        invariant ReadSoFar(lines, read, old(data), data)
        invariant lastCode == old(lastCode) && output == old(output)
      {
        if |input| == 0 {
          break;  // G_IO_STATUS_EOF
        }
        var line := input[0];
        assert line == lines[read] && input[1..] == lines[read + 1..];
        input := input[1..];
        var code := LineCode(line);
        if code.None? {
          ReadsBad(lines, count, read, old(data), data, false);
          return read + 1, true, false;  // G_SORT_ERROR_PARSE
        }
        var url := Strndup(Split(line).value.1);
        if url.None? {
          ReadsBad(lines, count, read, old(data), data, true);
          return read + 1, true, true;  // the copy through NULL
        }
        var record := Record(code.value, url.value);
        assert LineRecord(line) == Some(record);
        ReadStep(lines, read, old(data), data);
        data := data + [record];
        read := read + 1;
      }
      ReadsAll(lines, count, read, old(data), data);
      failed, crashed := false, false;
    }

    /** `g_array_sort(data, compare_shorturls)`. */
    method Sort()
      modifies this
      ensures data == SortRecords(old(data))
      ensures input == old(input) && lastCode == old(lastCode) && output == old(output)
    {
      data := SortRecords(data);
    }

    /** `write_file`: fails when the first record orders before the last code
        written (the max distance was too small); otherwise prints the first
        `count` records and removes them. Either way `last_code` becomes the
        code of the last record looked at. */
    method WriteFile(count: nat) returns (failed: bool)
      requires |data| > 0
      modifies this
      ensures failed <==> CompareCodes(old(lastCode), old(data)[0].code) > 0
      ensures failed ==> data == old(data) && output == old(output) && lastCode == old(data)[0].code
      ensures !failed ==> var w := Min(count, |old(data)|);
        && output == old(output) + old(data)[..w]
        && data == old(data)[w..]
        && lastCode == old(data)[if w == 0 then 0 else w - 1].code
      ensures input == old(input)
    {
      var current := data[0];
      failed := CompareCodes(lastCode, current.code) > 0;
      var written := 0;
      while written < count && written < |data| && !failed
        invariant written <= Min(count, |data|) && (failed ==> written == 0)
        invariant output == old(output) + data[..written] && data == old(data)
        invariant input == old(input) && lastCode == old(lastCode)
        invariant current == data[if written == 0 then 0 else written - 1]
      {
        current := data[written];
        output := output + [current];
        written := written + 1;
        assert data[..written] == data[..written - 1] + [current];
      }
      lastCode := current.code;
      data := data[written..];
    }
  }

  /** `main` of sort: 2 on a wrong argument count; 1 when the in-file does
      not exist, the out-file exists, a file cannot be opened, a line does not
      parse, the in-file holds no line, or a record lies more than
      MAX_DISTANCE places from its sorted position; 0 otherwise. None when the
      program dies on a line that `Crashes`. The in-file is opened before the
      first read and the out-file after it, so `outOpens` matters only to
      input that survives that read. Returns the records written to the
      out-file. */
  method Run(argc: int, inExists: bool, outExists: bool, inOpens: bool, outOpens: bool, lines: seq<seq<Byte>>)
    returns (status: Option<int>, written: seq<Record>)
    ensures status == Some(2) <==> argc != 3
    ensures status.Some? ==> 0 <= status.value <= 2
    ensures status.None? ==> argc == 3 && inExists && !outExists && inOpens && CrashesFirst(lines)
    ensures status.None? && !outOpens ==> FirstStop(lines) < MaxDistance
    ensures (argc == 3 && inExists && !outExists && inOpens && CrashesFirst(lines)
             && FirstStop(lines) < MaxDistance) ==> status.None?
    ensures status == Some(0) ==> argc == 3 && inExists && !outExists && inOpens && outOpens
    ensures status == Some(0) ==> 0 < |lines| && AllSome(Parsed(lines))
    ensures status == Some(0) ==> forall line | line in lines :: !Crashes(line)
    ensures status == Some(0) ==> Sorted(written) && multiset(written) == multiset(Values(Parsed(lines)))
    ensures (argc == 3 && inExists && !outExists && inOpens && outOpens && 0 < |lines| <= MaxDistance
             && AllSome(Parsed(lines))) ==> status == Some(0)
  {
    if argc != 3 {
      return Some(2), [];
    }
    if !inExists || outExists || !inOpens {
      return Some(1), [];
    }
    var ok, crashed;
    ok, crashed, written := SortLines(lines, outOpens);
    if crashed {
      return None, written;
    }
    status := if ok then Some(0) else Some(1);
    if ok {
      ParsedNoCrash(lines);
    }
  }

  /** Lines that all give a record hold no line the program dies on. */
  lemma ParsedNoCrash(lines: seq<seq<Byte>>)
    requires AllSome(Parsed(lines))
    ensures forall line | line in lines :: !Crashes(line)
  {
    forall line | line in lines ensures !Crashes(line) {
      var i :| 0 <= i < |lines| && lines[i] == line;
      ParsedNoCrashAt(lines, i);
    }
  }

  lemma ParsedNoCrashAt(lines: seq<seq<Byte>>, i: nat)
    requires AllSome(Parsed(lines)) && i < |lines|
    ensures !Crashes(lines[i])
  {
    ParsedAt(lines, i);
    assert LineRecord(lines[i]).Some?;
  }

  /** The work of main once the in-file is open: the first read, the opening
      of the out-file (`outOpens` says whether it succeeds), the loop of
      reads, sorts and writes of all but the last MAX_DISTANCE records, and
      the final write. */
  method SortLines(lines: seq<seq<Byte>>, outOpens: bool) returns (ok: bool, crashed: bool, written: seq<Record>)
    ensures crashed ==> !ok && CrashesFirst(lines)
    ensures CrashesFirst(lines) && FirstStop(lines) < MaxDistance ==> crashed
    ensures !outOpens ==> !ok && written == [] && (crashed <==> CrashesFirst(lines) && FirstStop(lines) < MaxDistance)
    ensures ok ==> outOpens && 0 < |lines| && AllSome(Parsed(lines))
    ensures ok ==> Sorted(written) && multiset(written) == multiset(Values(Parsed(lines)))
    ensures outOpens && 0 < |lines| <= MaxDistance && AllSome(Parsed(lines)) ==> ok
  {
    ghost var all := Parsed(lines);
    ghost var fits := |lines| <= MaxDistance && AllSome(all);
    var sorter := new Sorter(lines);
    ghost var c: nat, records: seq<Record> := 0, [];
    assert all[..0] == [];
    var read, failed;
    read, failed, crashed, c, records := ReadMore(sorter, lines, 0, []);
    if failed || read == 0 {
      return false, crashed, [];  // a parse error, or no data in the in-file
    }
    if !outOpens {
      return false, false, [];  // the out-file cannot be opened
    }
    ProgressCount(lines, c, records, sorter.input, sorter.data, sorter.output, sorter.lastCode);
    var more := true;
    while more
      invariant Progress(sorter, lines, c, records) && |sorter.data| > 0
      invariant !more ==> c == |lines| && Sorted(sorter.data)
      invariant fits ==> c == |lines| && sorter.output == [] && |sorter.data| <= MaxDistance
      invariant !crashed
      decreases |lines| - c, more
    {
      read, failed, crashed, c, records := ReadMore(sorter, lines, c, records);
      if failed {
        return false, crashed, sorter.output;
      }
      SortData(sorter, lines, c, records);
      if |sorter.data| > MaxDistance {
        failed := Flush(sorter, |sorter.data| - MaxDistance, lines, c, records);
        if failed {
          return false, false, sorter.output;
        }
      }
      if read == 0 {
        more := false;
      }
      ProgressCount(lines, c, records, sorter.input, sorter.data, sorter.output, sorter.lastCode);
    }
    if fits {
      EmptyFirst(sorter.data[0].code);
    }
    failed := Flush(sorter, |sorter.data|, lines, c, records);
    if failed {
      return false, false, sorter.output;
    }
    assert all[..c] == all;
    return true, false, sorter.output;
  }

  /** What main's loop keeps: the first `c` lines are read and parsed into
      `records`, which are all in the out-file or in the buffer; the out-file
      is sorted and `last_code` is the code of its last record. */
  ghost predicate Progress(sorter: Sorter, lines: seq<seq<Byte>>, c: nat, records: seq<Record>)
    reads sorter
  {
    ProgressOf(lines, c, records, sorter.input, sorter.data, sorter.output, sorter.lastCode)
  }

  ghost predicate ProgressOf(lines: seq<seq<Byte>>, c: nat, records: seq<Record>, input: seq<seq<Byte>>,
                             data: seq<Record>, output: seq<Record>, lastCode: seq<Byte>)
  {
    && c <= |lines| && input == lines[c..]
    && AllSome(Parsed(lines)[..c]) && records == Values(Parsed(lines)[..c])
    && multiset(output) + multiset(data) == multiset(records)
    && Sorted(output)
    && (|output| == 0 ==> lastCode == [])
    && (|output| > 0 ==> lastCode == output[|output| - 1].code)
  }

  lemma ProgressCount(lines: seq<seq<Byte>>, c: nat, records: seq<Record>, input: seq<seq<Byte>>,
                      data: seq<Record>, output: seq<Record>, lastCode: seq<Byte>)
    requires ProgressOf(lines, c, records, input, data, output, lastCode)
    ensures |output| + |data| == c
  {
    assert |multiset(output) + multiset(data)| == |multiset(records)|;
  }

  /** A read in main keeps `Progress`, and reads all of the rest when every
      line parses and the rest fits in one read. */
  lemma AfterRead(lines: seq<seq<Byte>>, c: nat, records: seq<Record>, input: seq<seq<Byte>>,
                  data: seq<Record>, output: seq<Record>, lastCode: seq<Byte>,
                  read: nat, failed: bool, crashed: bool, data': seq<Record>, input': seq<seq<Byte>>)
    returns (records': seq<Record>)
    requires ProgressOf(lines, c, records, input, data, output, lastCode)
    requires Reads(input, MaxDistance, read, failed, crashed, data, data', input')
    ensures !failed ==> ProgressOf(lines, c + read, records', input', data', output, lastCode)
    ensures !failed ==> (read == 0 <==> c == |lines|) && |data'| >= |data|
    ensures AllSome(Parsed(lines)) && |lines| <= c + MaxDistance ==> !failed && c + read == |lines|
    ensures crashed <==> CrashesFirst(lines) && FirstStop(lines) < c + MaxDistance
  {
    var all := Parsed(lines);
    ReadCrashes(lines, c, input, read, failed, crashed, data, data', input');
    ParsedSuffix(lines, c);
    var rest := all[c..];
    if AllSome(all) {
      assert forall i :: 0 <= i < |rest| ==> rest[i].Some?;
      FirstBadNone(rest, Min(MaxDistance, |rest|));
    }
    records' := records;
    if !failed {
      Consumed(all, c, read);
      assert lines[c..][read..] == lines[c + read..];
      records' := Values(all[..c + read]);
    }
  }

  /** A read in main dies exactly when the first line of the in-file that
      gives no record is one to die on and lies within the window. */
  lemma ReadCrashes(lines: seq<seq<Byte>>, c: nat, input: seq<seq<Byte>>, read: nat, failed: bool,
                    crashed: bool, data: seq<Record>, data': seq<Record>, input': seq<seq<Byte>>)
    requires c <= |lines| && input == lines[c..] && AllSome(Parsed(lines)[..c])
    requires Reads(input, MaxDistance, read, failed, crashed, data, data', input')
    ensures crashed <==> CrashesFirst(lines) && FirstStop(lines) < c + MaxDistance
  {
    var p := Parsed(input);
    var n := Min(MaxDistance, |p|);
    var k := FirstBad(p, n);
    StopWithin(lines, c, n);
    if k < n {
      assert input[k] == lines[c + k];
    }
  }

  /** Past `c` lines that all give records, the first line among the next
      `n` that gives none is the first of the whole in-file. */
  lemma StopWithin(lines: seq<seq<Byte>>, c: nat, n: nat)
    requires c <= |lines| && AllSome(Parsed(lines)[..c]) && n <= |lines| - c
    ensures var k := FirstBad(Parsed(lines[c..]), n);
      && (k < n ==> FirstStop(lines) == c + k)
      && (k == n ==> c + n <= FirstStop(lines))
  {
    var all := Parsed(lines);
    ParsedSuffix(lines, c);
    var rest := all[c..];
    assert forall i :: 0 <= i < c ==> all[i] == all[..c][i];
    FirstBadShift(all, c, |rest|);
    FirstBadPrefix(rest, n, |rest|);
  }

  /** One `read_shorturls(in, data, MAX_DISTANCE)` of main. */
  method ReadMore(sorter: Sorter, ghost lines: seq<seq<Byte>>, ghost c: nat, ghost records: seq<Record>)
    returns (read: nat, failed: bool, crashed: bool, ghost c': nat, ghost records': seq<Record>)
    requires Progress(sorter, lines, c, records)
    modifies sorter
    ensures !failed ==> Progress(sorter, lines, c', records') && c' == c + read
    ensures !failed ==> (read == 0 <==> c == |lines|) && |sorter.data| >= |old(sorter.data)|
    ensures !failed ==> sorter.output == old(sorter.output)
    ensures AllSome(Parsed(lines)) && |lines| <= c + MaxDistance ==> !failed && c' == |lines|
    ensures crashed ==> failed
    ensures crashed <==> CrashesFirst(lines) && FirstStop(lines) < c + MaxDistance
  {
    ghost var input, data := sorter.input, sorter.data;
    read, failed, crashed := sorter.ReadShortUrls(MaxDistance);
    records' := AfterRead(lines, c, records, input, data, sorter.output, sorter.lastCode,
                          read, failed, crashed, sorter.data, sorter.input);
    c' := c + read;
  }

  /** `g_array_sort` in main. */
  method SortData(sorter: Sorter, ghost lines: seq<seq<Byte>>, ghost c: nat, ghost records: seq<Record>)
    requires Progress(sorter, lines, c, records)
    modifies sorter
    ensures Progress(sorter, lines, c, records) && Sorted(sorter.data)
    ensures |sorter.data| == |old(sorter.data)| && sorter.output == old(sorter.output)
  {
    ghost var d := sorter.data;
    sorter.Sort();
    SortRecordsSorted(d);
  }

  /** ReadShortUrls on the lines from `c` on, reading `read` of them without a
      failure, adds their records to what was read from the first `c`. */
  lemma Consumed(all: seq<Option<Record>>, c: nat, read: nat)
    requires c + read <= |all| && AllSome(all[..c])
    requires FirstBad(all[c..], read) == read
    ensures AllSome(all[..c + read])
    ensures Values(all[..c + read]) == Values(all[..c]) + Values(all[c..][..read])
  {
    var tail := all[c..];
    var front := all[..c + read];
    assert AllSome(front) by {
      forall i | 0 <= i < c + read ensures front[i].Some? {
        if i < c {
          assert front[i] == all[..c][i];
        } else {
          assert front[i] == tail[i - c];
        }
      }
    }
    assert tail[..read] == all[c..c + read];
    ValuesSplit(all, c, c + read);
  }

  /** `write_file` in main, on the sorted buffer: keeps the out-file sorted
      and its last code in `last_code`. */
  method Flush(sorter: Sorter, count: nat, ghost lines: seq<seq<Byte>>, ghost c: nat, ghost records: seq<Record>)
    returns (failed: bool)
    requires Progress(sorter, lines, c, records)
    requires 0 < count <= |sorter.data| && Sorted(sorter.data)
    modifies sorter
    ensures failed <==> CompareCodes(old(sorter.lastCode), old(sorter.data)[0].code) > 0
    ensures !failed ==> Progress(sorter, lines, c, records) && Sorted(sorter.data)
    ensures !failed ==> sorter.data == old(sorter.data)[count..]
  {
    ghost var input, data, output, last := sorter.input, sorter.data, sorter.output, sorter.lastCode;
    failed := sorter.WriteFile(count);
    if !failed {
      AfterWrite(lines, c, records, input, data, output, last, count);
    }
  }

  /** A successful write in main keeps `Progress`. */
  lemma AfterWrite(lines: seq<seq<Byte>>, c: nat, records: seq<Record>, input: seq<seq<Byte>>,
                   data: seq<Record>, output: seq<Record>, lastCode: seq<Byte>, count: nat)
    requires ProgressOf(lines, c, records, input, data, output, lastCode)
    requires 0 < count <= |data| && Sorted(data) && CompareCodes(lastCode, data[0].code) <= 0
    ensures ProgressOf(lines, c, records, input, data[count..], output + data[..count], data[count - 1].code)
    ensures Sorted(data[count..])
  {
    var written := data[..count];
    WrittenSorted(output, lastCode, data, count);
    WrittenKeepsRecords(output, data, count);
    var output' := output + written;
    assert output'[|output'| - 1] == data[count - 1];
  }

  /** Appending a prefix of the sorted buffer to a sorted output whose last
      code orders before it keeps both sorted. */
  lemma WrittenSorted(output: seq<Record>, lastCode: seq<Byte>, data: seq<Record>, count: nat)
    requires Sorted(output) && Sorted(data) && 0 < count <= |data|
    requires |output| > 0 ==> lastCode == output[|output| - 1].code
    requires CompareCodes(lastCode, data[0].code) <= 0
    ensures Sorted(output + data[..count]) && Sorted(data[count..])
  {
    SortedSlices(data, count);
    SortedConcat(output, data[..count]);
  }

  /** Moving a prefix of the buffer to the output keeps the records. */
  lemma WrittenKeepsRecords(output: seq<Record>, data: seq<Record>, count: nat)
    requires count <= |data|
    ensures multiset(output + data[..count]) + multiset(data[count..]) == multiset(output) + multiset(data)
  {
    assert data == data[..count] + data[count..];
  }
}
