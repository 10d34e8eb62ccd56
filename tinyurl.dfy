/** lib/tinyback/services/tinyurl.rb: the TinyURL adapter. */
module TinyUrl {
  import opened Wrappers
  import opened RubyText
  import opened Services

  /** "0123456789abcdefghijklmnopqrstuvwxyz" */
  const Charset := Digits + LowerLetters
  const MaxLength := 49

  /** A line `/^[a-z0-9]{1,49}$/` matches in full. */
  predicate ValidLine(l: string) {
    1 <= |l| <= MaxLength && InCharset(Charset, l)
  }

  /** The rewriting `canonicalize` applies before it checks: keep the text
      before the first "/", delete every "-", lowercase. */
  function Normalize(code: string): string {
    Downcase(Delete(BeforeFirst(code, '/'), '-'))
  }

  /** The rewritten code holds no "/", no "-" and no uppercase letter. */
  lemma NormalizeClean(code: string)
    ensures '/' !in Normalize(code) && '-' !in Normalize(code)
    ensures forall i :: 0 <= i < |Normalize(code)| ==> !('A' <= Normalize(code)[i] <= 'Z')
  {
    var b := BeforeFirst(code, '/');
    BeforeFirstPrefix(code, '/');
    DeleteKeeps(b, '-', '/');
    DeleteRemoves(b, '-');
    DowncaseKeeps(Delete(b, '-'), '/');
    DowncaseKeeps(Delete(b, '-'), '-');
  }

  /** `TinyURL.canonicalize`; None stands for InvalidCodeError.  Ruby's `^`
      and `$` match at every line, so a string with one valid line passes. */
  function Canonicalize(code: string): (r: Option<string>)
    ensures r.Some? ==> r.value == Normalize(code)
    ensures r.Some? <==> exists l :: l in Lines(Normalize(code)) && ValidLine(l)
  {
    var c := Normalize(code);
    if exists l :: l in Lines(c) && ValidLine(l) then Some(c) else None
  }

  /** `TinyURL.url`; None when `canonicalize` raises. */
  function Url(code: string): (r: Option<string>)
    ensures r.Some? <==> Canonicalize(code).Some?
    ensures r.Some? ==> r.value == "http://tinyurl.com/" + Canonicalize(code).value
  {
    match Canonicalize(code)
    case None => None
    case Some(c) => Some("http://tinyurl.com/" + c)
  }

  lemma DowncaseLower(s: string)
    requires forall i :: 0 <= i < |s| ==> !('A' <= s[i] <= 'Z')
    ensures Downcase(s) == s
  {
  }

  /** On a line-free code `canonicalize` accepts exactly the rewritten codes
      of 1 to 49 characters of the charset. */
  lemma CanonicalizeSingleLine(code: string)
    requires '\n' !in code
    ensures Canonicalize(code).Some? <==> ValidLine(Normalize(code))
    ensures Canonicalize(code).Some? ==>
      InCharset(Charset, Canonicalize(code).value) && 1 <= |Canonicalize(code).value| <= MaxLength
  {
    var b := BeforeFirst(code, '/');
    BeforeFirstPrefix(code, '/');
    DeleteKeeps(b, '-', '\n');
    var c := Normalize(code);
    assert '\n' !in c;
    SplitOnAbsent(c, '\n');
  }

  /** `canonicalize` is idempotent. */
  lemma CanonicalizeIdempotent(code: string)
    requires Canonicalize(code).Some?
    ensures Canonicalize(Canonicalize(code).value) == Canonicalize(code)
  {
    var c := Canonicalize(code).value;
    NormalizeClean(code);
    BeforeFirstAbsent(c, '/');
    DeleteKeeps(c, '-', '-');
    DowncaseLower(c);
    assert Normalize(c) == c;
  }

  /** The short URL does not change when the code is canonicalized first. */
  lemma UrlOfCanonical(code: string)
    requires Canonicalize(code).Some?
    ensures Url(Canonicalize(code).value) == Url(code)
  {
    CanonicalizeIdempotent(code);
  }

  /** An example is checked by its rewriting and its single line. */
  lemma CanonicalizeTo(code: string, c: string)
    requires '\n' !in code && Normalize(code) == c && ValidLine(c)
    ensures Canonicalize(code) == Some(c)
  {
    CanonicalizeSingleLine(code);
  }

  lemma RejectedBy(code: string)
    requires '\n' !in code && !ValidLine(Normalize(code))
    ensures Canonicalize(code) == None
  {
    CanonicalizeSingleLine(code);
  }

  /** A code free of "/" and "-" keeps its length under rewriting. */
  lemma NormalizeKeepsLength(code: string)
    requires '/' !in code && '-' !in code
    ensures |Normalize(code)| == |code|
  {
    BeforeFirstAbsent(code, '/');
    DeleteKeeps(code, '-', '-');
  }

  lemma CaseRewritten()
    ensures Normalize("TEsT") == "test"
  {
    var t := "TEsT";
    assert '/' !in t && '-' !in t;
    BeforeFirstAbsent(t, '/');
    DeleteKeeps(t, '-', '-');
    var d := Downcase(t);
    assert d[0] == 't' && d[1] == 'e' && d[2] == 's' && d[3] == 't';
    assert d == "test";
  }

  /** A string of lowercase letters lies in the charset. */
  lemma LowerInCharset(s: string)
    requires forall i :: 0 <= i < |s| ==> 'a' <= s[i] <= 'z'
    ensures InCharset(Charset, s)
  {
    forall i | 0 <= i < |s| ensures s[i] in Charset {
      PiecesHave(s[i]);
    }
  }

  lemma TestIsValid()
    ensures ValidLine("test") && Delete("test", '-') == "test" && Downcase("test") == "test"
  {
    LowerInCharset("test");
  }

  lemma DashesCut()
    ensures BeforeFirst("--te---st--", '/') == "--te---st--"
  {
    assert '/' !in "--te---st--";
    BeforeFirstAbsent("--te---st--", '/');
  }

  lemma DashesDeleted()
    ensures Delete("--te---st--", '-') == "test"
  {
    DashesPiecesDeleted("--te---st--");
  }

  lemma DashesPiecesDeleted(s: string)
    requires s == "--" + "te" + "---" + "st" + "--"
    ensures Delete(s, '-') == "test"
  {
    DeleteAppend("--", "te", '-');
    DeleteAppend("--" + "te", "---", '-');
    DeleteAppend("--" + "te" + "---", "st", '-');
    DeleteAppend("--" + "te" + "---" + "st", "--", '-');
    DashRunsDeleted();
    LettersKept();
  }

  lemma DashRunsDeleted()
    ensures Delete("--", '-') == "" && Delete("---", '-') == ""
  {
  }

  lemma LettersKept()
    ensures Delete("te", '-') == "te" && Delete("st", '-') == "st"
  {
  }

  lemma SlashCut()
    ensures BeforeFirst("test/another-test", '/') == "test"
  {
  }

  /** The 50-character code of tests/tc_tinyurl.rb. */
  const LongCode := Digits + UpperLetters + Digits + "ABCD"

  lemma PiecesAreClean()
    ensures '/' !in Digits && '-' !in Digits && '\n' !in Digits
    ensures '/' !in UpperLetters && '-' !in UpperLetters && '\n' !in UpperLetters
  {
    PiecesHave('/');
    PiecesHave('-');
    PiecesHave('\n');
  }

  lemma CaseExample(code: string)
    requires code == "TEsT"
    ensures Canonicalize(code) == Some("test")
  {
    CaseRewritten();
    TestIsValid();
    CanonicalizeTo(code, "test");
  }

  lemma DashesRewritten()
    ensures Normalize("--te---st--") == "test"
  {
    DashesCut();
    DashesDeleted();
    TestIsValid();
  }

  lemma DashesExample(code: string)
    requires code == "--te---st--"
    ensures Canonicalize(code) == Some("test")
  {
    assert '\n' !in "--te---st--";
    DashesRewritten();
    TestIsValid();
    CanonicalizeTo(code, "test");
  }

  lemma SlashRewritten()
    ensures Normalize("test/another-test") == "test"
  {
    SlashCut();
    TestIsValid();
  }

  lemma SlashExample(code: string)
    requires code == "test/another-test"
    ensures Canonicalize(code) == Some("test")
  {
    assert '\n' !in "test/another-test";
    SlashRewritten();
    TestIsValid();
    CanonicalizeTo(code, "test");
  }

  lemma AmpersandRewritten()
    ensures Normalize("test&") == "test&"
  {
    assert BeforeFirst("test&", '/') == "test&" by {
      assert '/' !in "test&";
      BeforeFirstAbsent("test&", '/');
    }
    assert Delete("test&", '-') == "test&" by {
      assert '-' !in "test&";
      DeleteKeeps("test&", '-', '-');
    }
    var d := Downcase("test&");
    assert d[0] == 't' && d[1] == 'e' && d[2] == 's' && d[3] == 't' && d[4] == '&';
    assert d == "test&";
  }

  lemma AmpersandInvalid()
    ensures !ValidLine("test&")
  {
    PiecesHave('&');
    assert "test&"[4] == '&';
  }

  lemma AmpersandExample(code: string)
    requires code == "test&"
    ensures Canonicalize(code) == None
  {
    assert '\n' !in "test&";
    AmpersandRewritten();
    AmpersandInvalid();
    RejectedBy(code);
  }

  lemma LongExample(code: string)
    requires code == LongCode
    ensures Canonicalize(code) == None
  {
    PiecesAreClean();
    NormalizeKeepsLength(code);
    RejectedBy(code);
  }

  /** tests/tc_tinyurl.rb: case is folded, dashes are ignored, everything
      after a slash is ignored; a character outside the charset, the empty
      code and a code of 50 characters are invalid. */
  lemma CanonicalizeExamples()
    ensures Canonicalize("TEsT") == Some("test")
    ensures Canonicalize("--te---st--") == Some("test")
    ensures Canonicalize("test/another-test") == Some("test")
    ensures Canonicalize("test&") == None
    ensures Canonicalize("") == None
    ensures Canonicalize(LongCode) == None
  {
    CaseExample("TEsT");
    DashesExample("--te---st--");
    SlashExample("test/another-test");
    AmpersandExample("test&");
    RejectedBy("");
    LongExample(LongCode);
  }

  /** The `advance` examples of tests/tc_tinyurl.rb. */
  lemma AdvanceDigit()
    ensures Next(Charset, "0") == Some("1")
  {
    assert IndexOf(Charset, '0') == Some(0);
    assert "0"[..0] + [Charset[1]] == "1";
  }

  lemma AdvanceToLetter()
    ensures Next(Charset, "9") == Some("a")
  {
    PiecesHave('9');
    IndexOfConcat(Digits, LowerLetters, '9');
    SpanIndex('0', 10, 9);
    assert Charset[10] == LowerLetters[0] == 'a';
    NextSingle(Charset, '9', 9);
  }

  lemma AdvanceWraps()
    ensures Next(Charset, "z") == Some("00")
  {
    NextWraps(Charset, "z");
    assert Repeat('0', 2) == "00";
  }

  lemma AdvanceCarries()
    ensures Next(Charset, "0z") == Some("10")
  {
    AdvanceDigit();
    assert "0z"[..1] == "0";
    assert "1" + [Charset[0]] == "10";
  }

  // ---------------------------------------------------------------------------
  // fetch

  const StatusMoved := "HTTP/1.0 301 Moved Permanently\r\n"
  const StatusNotFound := "HTTP/1.0 404 Not Found\r\n"
  const StatusOk := "HTTP/1.0 200 OK\r\n"
  const StatusFound := "HTTP/1.0 302 Found\r\n"

  datatype Verb = Head | Get

  /** The request `fetch` writes for a canonical code. */
  function Request(verb: Verb, canonical: string): (r: string)
    ensures StartsWith(r, if verb == Get then "GET /" else "HEAD /")
  {
    (if verb == Get then "GET" else "HEAD") + " /" + canonical + " HTTP/1.0\r\nHost: tinyurl.com\r\n\r\n"
  }

  /** What the server sends back: the status line, the following lines as
      `gets` returns them, and the body after the header block (handed to the
      HTML scraper on a 200 answer to GET); None where `gets` returns nil. */
  datatype Reply = Reply(status: Option<string>, lines: seq<string>, body: Option<string>)

  /** A line segment the pattern `^Location: (.*)\r\n` matches when a "\n"
      follows it: the prefix, then anything, then a CR. */
  predicate CrLocationLine(l: string) {
    StartsWith(l, LocationPrefix) && |l| > |LocationPrefix| && l[|l| - 1] == '\r'
  }

  /** Segment `i` is the first one the pattern matches. */
  predicate FirstCrLocationAt(ls: seq<string>, i: int) {
    && 0 <= i < |ls| && CrLocationLine(ls[i])
    && forall j :: 0 <= j < i ==> !CrLocationLine(ls[j])
  }

  /** The capture of `line =~ /^Location: (.*)\r\n/`: within the first
      segment ended by a "\n" that starts with "Location: " and ends in "\r",
      and nothing when there is no such segment. */
  function MovedLocation(line: string): (r: Option<string>)
    ensures var ls := Lines(line)[..|Lines(line)| - 1];
      && (r.Some? ==> exists i :: FirstCrLocationAt(ls, i) && r.value == ls[i][|LocationPrefix|..|ls[i]| - 1])
      && (r.None? <==> forall l :: l in ls ==> !CrLocationLine(l))
  {
    var ls := Lines(line)[..|Lines(line)| - 1];
    var r := CrLocation(ls);
    assert r.Some? ==> exists i :: FirstCrLocationAt(ls, i) && r.value == ls[i][|LocationPrefix|..|ls[i]| - 1];
    assert r.None? <==> forall l :: l in ls ==> !CrLocationLine(l);
    r
  }

  function CrLocation(ls: seq<string>): (r: Option<string>)
    ensures r.Some? ==> exists i :: FirstCrLocationAt(ls, i) && r.value == ls[i][|LocationPrefix|..|ls[i]| - 1]
    ensures r.None? <==> forall l :: l in ls ==> !CrLocationLine(l)
  {
    if |ls| == 0 then None
    else if CrLocationLine(ls[0]) then
      assert FirstCrLocationAt(ls, 0);
      Some(ls[0][|LocationPrefix|..|ls[0]| - 1])
    else
      var r := CrLocation(ls[1..]);
      CrLocationCons(ls);
      if r.Some? then
        var i :| FirstCrLocationAt(ls[1..], i) && r.value == ls[1..][i][|LocationPrefix|..|ls[1..][i]| - 1];
        FirstCrLocationCons(ls, i);
        r
      else r
  }

  /** A sequence has no matching segment when its head does not match and
      its tail has none. */
  lemma CrLocationCons(ls: seq<string>)
    requires |ls| > 0
    ensures (forall l :: l in ls ==> !CrLocationLine(l)) <==>
            !CrLocationLine(ls[0]) && forall l :: l in ls[1..] ==> !CrLocationLine(l)
  {
    assert ls == [ls[0]] + ls[1..];
  }

  /** Behind a head that does not match, the first match of the tail is the
      first match. */
  lemma FirstCrLocationCons(ls: seq<string>, i: int)
    requires |ls| > 0 && !CrLocationLine(ls[0]) && FirstCrLocationAt(ls[1..], i)
    ensures FirstCrLocationAt(ls, i + 1) && ls[1..][i] == ls[i + 1]
  {
    forall j | 0 <= j < i + 1 ensures !CrLocationLine(ls[j]) {
      if j > 0 {
        assert ls[j] == ls[1..][j - 1];
      }
    }
  }

  /** A "Location: X" line ended by CRLF is captured as X. */
  lemma LocationLineCaptured(x: string)
    requires '\n' !in x
    ensures MovedLocation(LocationPrefix + x + "\r\n") == Some(x)
    ensures MovedOutcome([LocationPrefix + x + "\r\n"]) == Found(x)
  {
    var l := LocationPrefix + x + "\r";
    assert LocationPrefix + x + "\r\n" == l + ['\n'];
    SplitOnTerminated(l, '\n');
    assert CrLocationLine(l);
    assert l[|LocationPrefix|..|l| - 1] == x;
  }

  /** A line the 301 scan reads past. */
  predicate Skipped(line: string) {
    MovedLocation(line).None? && line != "\r\n"
  }

  /** Where the 301 scan stops: the first line that is not skipped. */
  function StopIndex(lines: seq<string>): (k: nat)
    ensures k <= |lines|
    ensures forall j :: 0 <= j < k ==> Skipped(lines[j])
    ensures k < |lines| ==> !Skipped(lines[k])
  {
    if |lines| == 0 || !Skipped(lines[0]) then 0 else 1 + StopIndex(lines[1..])
  }

  /** The outcome of the 301 scan: the first Location wins, a bare CRLF
      reached first raises `BlockedError` (a NameError, the constant being
      undefined), and running out of lines raises FetchError. */
  function MovedOutcome(lines: seq<string>): (r: Response)
    ensures r.Found? ==> (exists i :: 0 <= i < |lines| && MovedLocation(lines[i]) == Some(r.url) &&
                                    forall j :: 0 <= j < i ==> Skipped(lines[j]))
    ensures r == Raise(NameError) ==> (exists i :: 0 <= i < |lines| && lines[i] == "\r\n" &&
                                               MovedLocation(lines[i]).None? && forall j :: 0 <= j < i ==> Skipped(lines[j]))
    ensures r == Raise(Error(FetchError)) <==> forall j :: 0 <= j < |lines| ==> Skipped(lines[j])
    ensures r.Found? || r == Raise(NameError) || r == Raise(Error(FetchError))
  {
    var k := StopIndex(lines);
    if k == |lines| then Raise(Error(FetchError))
    else match MovedLocation(lines[k])
      case Some(u) => Found(u)
      case None => Raise(NameError)
  }

  /** The 301 loop: reads lines until a Location, a bare CRLF or the end. */
  method ScanMoved(lines: seq<string>) returns (r: Response, stop: nat)
    ensures stop == StopIndex(lines)
    ensures r == MovedOutcome(lines)
  {
    stop := 0;
    while stop < |lines|
      invariant stop <= |lines|
      invariant forall j :: 0 <= j < stop ==> Skipped(lines[j])
    {
      var line := lines[stop];
      var loc := MovedLocation(line);
      if loc.Some? {
        StopIsFirst(lines, stop);
        return Found(loc.value), stop;
      }
      if line == "\r\n" {
        StopIsFirst(lines, stop);
        return Raise(NameError), stop;
      }
      stop := stop + 1;
    }
    StopIsFirst(lines, stop);
    r := Raise(Error(FetchError));
  }

  lemma StopIsFirst(lines: seq<string>, k: nat)
    requires k <= |lines|
    requires forall j :: 0 <= j < k ==> Skipped(lines[j])
    requires k < |lines| ==> !Skipped(lines[k])
    ensures StopIndex(lines) == k
  {
  }

  /** How one reply is answered; None means "re-request with GET" (a 200
      answer to HEAD).  `scrape` is the HTML extraction of lines 84-102. */
  function Answer(reply: Reply, get: bool, scrape: Option<string> -> Response): (r: Option<Response>)
    ensures r.None? <==> !get && reply.status == Some(StatusOk)
    ensures reply.status == Some(StatusMoved) ==> r == Some(MovedOutcome(reply.lines))
    ensures reply.status == Some(StatusNotFound) ==> r == Some(Raise(Error(NoRedirectError)))
    ensures reply.status == Some(StatusFound) ==> r == Some(Raise(NameError))
    ensures get && reply.status == Some(StatusOk) ==> r == Some(scrape(reply.body))
    ensures reply.status !in {Some(StatusMoved), Some(StatusNotFound), Some(StatusOk), Some(StatusFound)} ==>
      r == Some(Raise(Error(FetchError)))
  {
    if reply.status == Some(StatusMoved) then Some(MovedOutcome(reply.lines))
    else if reply.status == Some(StatusNotFound) then Some(Raise(Error(NoRedirectError)))
    else if reply.status == Some(StatusOk) then (if get then Some(scrape(reply.body)) else None)
    else if reply.status == Some(StatusFound) then Some(Raise(NameError))
    else Some(Raise(Error(FetchError)))
  }

  /** `TinyURL#fetch`.  `server` maps each request written to the reply read
      back; `sent` lists the requests in order.  A 200 answer to HEAD causes
      exactly one GET, a 200 answer to GET none. */
  method Fetch(code: string, get: bool, server: string -> Reply, scrape: Option<string> -> Response)
    returns (r: Response, sent: seq<string>)
    decreases if get then 0 else 1
    ensures Canonicalize(code).None? ==> r == Raise(Error(InvalidCodeError)) && sent == []
    ensures Canonicalize(code).Some? ==>
      var c := Canonicalize(code).value;
      var first := Request(if get then Get else Head, c);
      match Answer(server(first), get, scrape)
      case Some(a) => r == a && sent == [first]
      case None => sent == [first, Request(Get, c)] && Answer(server(Request(Get, c)), true, scrape) == Some(r)
    ensures |sent| <= (if get then 1 else 2)
  {
    var canon := Canonicalize(code);
    if canon.None? {
      return Raise(Error(InvalidCodeError)), [];
    }
    var c := canon.value;
    var request := Request(if get then Get else Head, c);
    var reply := server(request);
    sent := [request];
    if reply.status == Some(StatusMoved) {
      var stop;
      r, stop := ScanMoved(reply.lines);
    } else if reply.status == Some(StatusNotFound) {
      r := Raise(Error(NoRedirectError));
    } else if reply.status == Some(StatusOk) {
      if get {
        r := scrape(reply.body);
      } else {
        var again;
        r, again := Fetch(code, true, server, scrape);
        sent := sent + again;
      }
    } else if reply.status == Some(StatusFound) {
      r := Raise(NameError);
    } else {
      r := Raise(Error(FetchError));
    }
  }
}
