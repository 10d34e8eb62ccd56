/** remove_duplicates.rb: a filter over an output file that drops a record
    when the record before it had the same code and one of the records of
    that code's current run already had the same url. */
module RemoveDuplicates {
  import opened Wrappers
  import opened RubyText

  /** A non-blank line as `line.split("|", 2)` cuts it: the code and the url,
      nil when the line has no "|". */
  datatype Entry = Entry(code: string, url: Option<string>)

  /** What the loop carries from line to line: `previous_code`,
      `previous_urls`, and the records written so far. */
  datatype State = State(previousCode: Option<string>, previousUrls: seq<Option<string>>, kept: seq<Entry>)

  const Start := State(None, [], [])

  /** The record of a non-blank (chomped) line. */
  function EntryOf(line: string): (e: Entry)
    requires line != ""
    ensures '|' !in e.code
    ensures e.url.None? ==> e.code == line
    ensures e.url.Some? ==> line == e.code + "|" + e.url.value
  {
    var (code, url) := SplitRecord(line);
    Entry(code, url)
  }

  /** The loop body for one line as `each_line` yields it. */
  function Step(st: State, raw: string): State {
    var line := Chomp(raw);
    if line == "" then st
    else
      var e := EntryOf(line);
      if st.previousCode == Some(e.code) && e.url in st.previousUrls then st
      else
        var urls := if st.previousCode == Some(e.code) then st.previousUrls else [];
        State(Some(e.code), urls + [e.url], st.kept + [e])
  }

  /** The state after the loop has read `lines`. */
  function Fold(lines: seq<string>): State {
    if |lines| == 0 then Start else Step(Fold(lines[..|lines| - 1]), lines[|lines| - 1])
  }

  /** `"#{url}"`: nil interpolates as the empty string. */
  function UrlText(u: Option<string>): string {
    if u.Some? then u.value else ""
  }

  /** The line written for a kept record. */
  function Written(e: Entry): (w: string)
    ensures w == e.code + "|" + UrlText(e.url) + "\n"
  {
    e.code + "|" + UrlText(e.url) + "\n"
  }

  function Render(es: seq<Entry>): string {
    if |es| == 0 then "" else Render(es[..|es| - 1]) + Written(es[|es| - 1])
  }

  /** The records of the non-blank lines, in input order. */
  function Records(lines: seq<string>): seq<Entry> {
    if |lines| == 0 then []
    else
      var line := Chomp(lines[|lines| - 1]);
      Records(lines[..|lines| - 1]) + (if line == "" then [] else [EntryOf(line)])
  }

  /** The script: every line of standard input through the loop body, the
      kept records written in turn. */
  method Filter(input: string) returns (out: string)
    ensures out == Render(Fold(EachLine(input)).kept)
  {
    var lines := EachLine(input);
    var previousCode: Option<string> := None;
    var previousUrls: seq<Option<string>> := [];
    ghost var kept: seq<Entry> := [];
    out := "";
    var i := 0;
    while i < |lines|
      invariant 0 <= i <= |lines|
      invariant Fold(lines[..i]) == State(previousCode, previousUrls, kept)
      invariant out == Render(kept)
    {
      FoldSnoc(lines, i);
      var line := Chomp(lines[i]);
      if line != "" {
        var code, url := BeforeFirst(line, '|'), AfterFirst(line, '|');
        assert EntryOf(line) == Entry(code, url);
        var drop := false;
        if previousCode == Some(code) {
          drop := url in previousUrls;
        } else {
          previousCode := Some(code);
          previousUrls := [];
        }
        if !drop {
          previousUrls := previousUrls + [url];
          RenderSnoc(kept, Entry(code, url));
          kept := kept + [Entry(code, url)];
          out := out + code + "|" + UrlText(url) + "\n";
        }
      }
      i := i + 1;
    }
    assert lines[..|lines|] == lines;
  }

  lemma FoldSnoc(lines: seq<string>, i: nat)
    requires i < |lines|
    ensures Fold(lines[..i + 1]) == Step(Fold(lines[..i]), lines[i])
  {
    assert lines[..i + 1][..i] == lines[..i];
  }

  lemma RenderSnoc(es: seq<Entry>, e: Entry)
    ensures Render(es + [e]) == Render(es) + e.code + "|" + UrlText(e.url) + "\n"
  {
    assert (es + [e])[..|es|] == es;
  }

  // ---------------------------------------------------------------------------
  // What the filter keeps

  /** A blank line writes nothing and leaves `previous_code` and
      `previous_urls` as they were. */
  lemma BlankLineSkipped(st: State, raw: string)
    requires Chomp(raw) == ""
    ensures Step(st, raw) == st
  {
  }

  /** A line is dropped exactly when it repeats the previous code with a url
      already seen for it; a new code starts the seen urls afresh and is
      kept. */
  lemma StepKeeps(st: State, raw: string)
    requires Chomp(raw) != ""
    ensures var e := EntryOf(Chomp(raw));
      && (Step(st, raw) == st <==> st.previousCode == Some(e.code) && e.url in st.previousUrls)
      && (st.previousCode != Some(e.code) ==>
            Step(st, raw) == State(Some(e.code), [e.url], st.kept + [e]))
  {
    var e := EntryOf(Chomp(raw));
    if !(st.previousCode == Some(e.code) && e.url in st.previousUrls) {
      assert |Step(st, raw).kept| == |st.kept| + 1;
    }
  }

  /** `a` is `b` with some elements left out. */
  predicate Subsequence(a: seq<Entry>, b: seq<Entry>)
    decreases |b|
  {
    if |a| == 0 then true
    else if |b| == 0 then false
    else
      || (a[|a| - 1] == b[|b| - 1] && Subsequence(a[..|a| - 1], b[..|b| - 1]))
      || Subsequence(a, b[..|b| - 1])
  }

  lemma {:induction false} SubsequenceExtend(a: seq<Entry>, b: seq<Entry>, x: Entry)
    requires Subsequence(a, b)
    ensures Subsequence(a, b + [x]) && Subsequence(a + [x], b + [x])
  {
    assert (b + [x])[..|b|] == b;
    assert (a + [x])[..|a|] == a;
  }

  /** The records written are the non-blank input records with some of them
      left out, in input order. */
  lemma {:induction false} KeptSubsequence(lines: seq<string>)
    ensures Subsequence(Fold(lines).kept, Records(lines))
  {
    if |lines| > 0 {
      var init := lines[..|lines| - 1];
      KeptSubsequence(init);
      var line := Chomp(lines[|lines| - 1]);
      var st := Fold(init);
      assert Fold(lines) == Step(st, lines[|lines| - 1]);
      if line != "" {
        var e := EntryOf(line);
        assert Records(lines) == Records(init) + [e];
        SubsequenceExtend(st.kept, Records(init), e);
        assert Fold(lines).kept == st.kept || Fold(lines).kept == st.kept + [e];
      } else {
        assert Records(lines) == Records(init) + [];
        assert Records(init) + [] == Records(init);
      }
    }
  }

  /** The records from `i` to `j` all have the code of record `i`. */
  predicate SameRun(es: seq<Entry>, i: nat, j: nat)
    requires i <= j < |es|
  {
    forall k :: i <= k <= j ==> es[k].code == es[i].code
  }

  /** Within every run of consecutive records with the same code, the urls
      are pairwise distinct. */
  predicate RunsDistinct(es: seq<Entry>) {
    forall i, j :: 0 <= i < j < |es| && SameRun(es, i, j) ==> es[i].url != es[j].url
  }

  /** The urls of the trailing records whose code is `c`. */
  function TrailUrls(es: seq<Entry>, c: string): seq<Option<string>> {
    if |es| == 0 || es[|es| - 1].code != c then []
    else TrailUrls(es[..|es| - 1], c) + [es[|es| - 1].url]
  }

  /** What the loop keeps true: `previous_code` is the code of the last
      record written, `previous_urls` the urls of its run, and runs hold no
      repeated url. */
  predicate Inv(st: State) {
    && (st.previousCode.None? <==> st.kept == [])
    && (st.kept != [] ==>
          st.previousCode.value == st.kept[|st.kept| - 1].code
          && st.previousUrls == TrailUrls(st.kept, st.previousCode.value))
    && RunsDistinct(st.kept)
  }

  /** A record inside the trailing run of code `c` has its url among the
      run's urls. */
  lemma {:induction false} InTrail(es: seq<Entry>, c: string, i: nat)
    requires i < |es| && forall k :: i <= k < |es| ==> es[k].code == c
    ensures es[i].url in TrailUrls(es, c)
    decreases |es|
  {
    if i < |es| - 1 {
      InTrail(es[..|es| - 1], c, i);
    }
  }

  lemma AppendNewCode(es: seq<Entry>, e: Entry)
    requires RunsDistinct(es) && (es != [] ==> es[|es| - 1].code != e.code)
    ensures RunsDistinct(es + [e]) && TrailUrls(es + [e], e.code) == [e.url]
  {
    var es' := es + [e];
    TrailNew(es, e);
    forall i, j | 0 <= i < j < |es'| && SameRun(es', i, j) ensures es'[i].url != es'[j].url {
      if j == |es| {
        assert false;
      } else {
        PrefixRun(es, e, i, j);
      }
    }
  }

  /** A run inside `es` stays a run once a record is appended. */
  lemma PrefixRun(es: seq<Entry>, e: Entry, i: nat, j: nat)
    requires i <= j < |es| && SameRun(es + [e], i, j)
    ensures SameRun(es, i, j)
  {
    var es' := es + [e];
    forall k | i <= k <= j ensures es[k].code == es[i].code {
      assert es'[k] == es[k] && es'[i] == es[i];
    }
  }

  lemma TrailNew(es: seq<Entry>, e: Entry)
    requires es != [] ==> es[|es| - 1].code != e.code
    ensures TrailUrls(es + [e], e.code) == [e.url]
  {
    var es' := es + [e];
    assert es'[..|es|] == es;
    assert TrailUrls(es, e.code) == [];
  }

  lemma AppendSameCode(es: seq<Entry>, e: Entry)
    requires RunsDistinct(es) && es != [] && es[|es| - 1].code == e.code
    requires e.url !in TrailUrls(es, e.code)
    ensures RunsDistinct(es + [e]) && TrailUrls(es + [e], e.code) == TrailUrls(es, e.code) + [e.url]
  {
    var es' := es + [e];
    assert es'[..|es|] == es;
    forall i, j | 0 <= i < j < |es'| && SameRun(es', i, j) ensures es'[i].url != es'[j].url {
      if j == |es| {
        assert forall k :: i <= k < |es| ==> es[k].code == e.code by {
          forall k | i <= k < |es| ensures es[k].code == e.code {
            assert es'[k].code == es'[i].code == es'[j].code;
          }
        }
        InTrail(es, e.code, i);
      } else {
        assert SameRun(es, i, j);
      }
    }
  }

  lemma StepInv(st: State, raw: string)
    requires Inv(st)
    ensures Inv(Step(st, raw))
  {
    var line := Chomp(raw);
    if line != "" {
      var e := EntryOf(line);
      if !(st.previousCode == Some(e.code) && e.url in st.previousUrls) {
        if st.previousCode == Some(e.code) {
          AppendSameCode(st.kept, e);
        } else {
          AppendNewCode(st.kept, e);
        }
      }
    }
  }

  /** Whatever the input, within any run of consecutive written lines with
      the same code no url is written twice. */
  lemma {:induction false} OutputRunsDistinct(lines: seq<string>)
    ensures Inv(Fold(lines)) && RunsDistinct(Fold(lines).kept)
  {
    if |lines| > 0 {
      OutputRunsDistinct(lines[..|lines| - 1]);
      StepInv(Fold(lines[..|lines| - 1]), lines[|lines| - 1]);
    }
  }
}
