/** lib/tinyback/services/isgd.rb: the is.gd adapter. */
module Isgd {
  import opened Wrappers
  import opened RubyText
  import opened Services

  /** "0123456789abcdefghijklmnopqrstuvwxyzABCDEFGHIJKLMNOPQRSTUVWXYZ_" */
  const Charset := Digits + LowerLetters + UpperLetters + "_"

  /** The longest prefix of `s` made of charset symbols. */
  function LeadingRun(s: string): (r: string)
    ensures |r| <= |s| && r == s[..|r|] && InCharset(Charset, r)
    ensures |r| < |s| ==> s[|r|] !in Charset
  {
    if |s| > 0 && s[0] in Charset then [s[0]] + LeadingRun(s[1..]) else []
  }

  /** The leading run of the first line that has a non-empty one. */
  function FirstRun(ls: seq<string>): (r: Option<string>)
    ensures r.Some? ==> (exists i :: 0 <= i < |ls| && r.value == LeadingRun(ls[i]) && r.value != "" &&
                                 forall j :: 0 <= j < i ==> LeadingRun(ls[j]) == "")
    ensures r.None? <==> forall i :: 0 <= i < |ls| ==> LeadingRun(ls[i]) == ""
  {
    if |ls| == 0 then None
    else if LeadingRun(ls[0]) != "" then Some(LeadingRun(ls[0]))
    else
      var r := FirstRun(ls[1..]);
      assert forall i :: 1 <= i < |ls| ==> ls[i] == ls[1..][i - 1];
      r
  }

  /** `Isgd.canonicalize`, the capture of `code.match(/^([A-Za-z0-9_]+)/)`;
      None stands for InvalidCodeError.  `^` matches at every line start,
      so the first line that starts with a charset symbol supplies the run. */
  function Canonicalize(code: string): (r: Option<string>)
    ensures r.Some? ==> r.value != "" && InCharset(Charset, r.value)
    ensures r.Some? ==> exists l :: l in Lines(code) && r.value == LeadingRun(l)
    ensures r.None? <==> forall l :: l in Lines(code) ==> LeadingRun(l) == ""
  {
    FirstRun(Lines(code))
  }

  /** `Isgd.url`; None when `canonicalize` raises. */
  function Url(code: string): (r: Option<string>)
    ensures r.Some? <==> Canonicalize(code).Some?
    ensures r.Some? ==> r.value == "http://is.gd/" + Canonicalize(code).value
  {
    match Canonicalize(code)
    case None => None
    case Some(c) => Some("http://is.gd/" + c)
  }

  /** Which characters the charset holds. */
  lemma CharsetHas(x: char)
    ensures x in Charset <==> '0' <= x <= '9' || 'a' <= x <= 'z' || 'A' <= x <= 'Z' || x == '_'
  {
    PiecesHave(x);
  }

  /** A string over the charset is its own leading run. */
  lemma {:induction false} LeadingRunAll(s: string)
    requires InCharset(Charset, s)
    ensures LeadingRun(s) == s
  {
    if |s| > 0 {
      assert InCharset(Charset, s[1..]) by {
        assert forall i :: 0 <= i < |s[1..]| ==> s[1..][i] == s[i + 1];
      }
      LeadingRunAll(s[1..]);
      assert [s[0]] + s[1..] == s;
    }
  }

  /** The leading run ends at the first symbol outside the charset. */
  lemma {:induction false} LeadingRunStops(s: string, k: nat)
    requires k < |s| && InCharset(Charset, s[..k]) && s[k] !in Charset
    ensures LeadingRun(s) == s[..k]
  {
    var r := LeadingRun(s);
    assert forall i :: 0 <= i < k ==> s[i] == s[..k][i] && s[i] in Charset;
    assert |r| == k;
  }

  /** On a line-free code `canonicalize` returns its leading run, and raises
      exactly when that run is empty. */
  lemma CanonicalizeSingleLine(code: string)
    requires '\n' !in code
    ensures Canonicalize(code) == if LeadingRun(code) == "" then None else Some(LeadingRun(code))
  {
    SplitOnAbsent(code, '\n');
  }

  /** `canonicalize` is idempotent. */
  lemma CanonicalizeIdempotent(code: string)
    requires Canonicalize(code).Some?
    ensures Canonicalize(Canonicalize(code).value) == Canonicalize(code)
  {
    var c := Canonicalize(code).value;
    CharsetHas('\n');
    assert '\n' !in c;
    LeadingRunAll(c);
    CanonicalizeSingleLine(c);
  }

  lemma CaseExample(code: string)
    requires code == "TEsT"
    ensures Canonicalize(code) == Some("TEsT")
  {
    CharsetHas('T');
    CharsetHas('E');
    CharsetHas('s');
    assert InCharset(Charset, code);
    assert '\n' !in code;
    LeadingRunAll(code);
    CanonicalizeSingleLine(code);
  }

  lemma SuiteExample(code: string)
    requires code == "test-suite"
    ensures Canonicalize(code) == Some("test")
  {
    CharsetHas('t');
    CharsetHas('e');
    CharsetHas('s');
    CharsetHas('-');
    assert code[..4] == "test" && code[4] == '-';
    LeadingRunStops(code, 4);
    assert '\n' !in code;
    CanonicalizeSingleLine(code);
  }

  lemma DigitsExample(code: string)
    requires code == "01234567"
    ensures Canonicalize(code) == Some("01234567")
  {
    forall i | 0 <= i < |code| ensures code[i] in Charset {
      CharsetHas(code[i]);
    }
    assert '\n' !in code;
    LeadingRunAll(code);
    CanonicalizeSingleLine(code);
  }

  /** tests/tc_isgd.rb: case is kept, the run stops at the first other
      character and the empty code is invalid.  The tests also expect
      "01234567" to be refused as too long; the code has no length limit. */
  lemma CanonicalizeExamples()
    ensures Canonicalize("TEsT") == Some("TEsT")
    ensures Canonicalize("test-suite") == Some("test")
    ensures Canonicalize("") == None
    ensures Canonicalize("01234567") == Some("01234567")
  {
    CaseExample("TEsT");
    SuiteExample("test-suite");
    CanonicalizeSingleLine("");
    DigitsExample("01234567");
  }

  // ---------------------------------------------------------------------------
  // advance, with is.gd's 63 symbols

  lemma AdvanceLetter()
    ensures Next(Charset, "a") == Some("b")
  {
    assert IndexOf(Charset, 'a') == Some(10) by {
      PiecesHave('a');
      SpanIndex('a', 26, 0);
      IndexInSecond(Digits, LowerLetters, UpperLetters, "_", 'a');
    }
    assert Charset[11] == 'b' by {
      assert Charset[11] == LowerLetters[1];
    }
    NextSingle(Charset, 'a', 10);
  }

  lemma AdvanceToUpper()
    ensures Next(Charset, "z") == Some("A")
  {
    assert IndexOf(Charset, 'z') == Some(35) by {
      PiecesHave('z');
      SpanIndex('a', 26, 25);
      IndexInSecond(Digits, LowerLetters, UpperLetters, "_", 'z');
    }
    assert Charset[36] == 'A' by {
      assert Charset[36] == UpperLetters[0];
    }
    NextSingle(Charset, 'z', 35);
  }

  lemma AdvanceToUnderscore()
    ensures Next(Charset, "Z") == Some("_")
  {
    assert IndexOf(Charset, 'Z') == Some(61) by {
      PiecesHave('Z');
      SpanIndex('A', 26, 25);
      IndexInThird(Digits, LowerLetters, UpperLetters, "_", 'Z');
    }
    assert Charset[62] == '_';
    NextSingle(Charset, 'Z', 61);
  }

  lemma AdvanceToLetter()
    ensures Next(Charset, "9") == Some("a")
  {
    assert IndexOf(Charset, '9') == Some(9) by {
      PiecesHave('9');
      SpanIndex('0', 10, 9);
      IndexInFirst(Digits, LowerLetters, UpperLetters, "_", '9');
    }
    assert Charset[10] == 'a' by {
      assert Charset[10] == LowerLetters[0];
    }
    NextSingle(Charset, '9', 9);
  }

  /** The successors under the charset as written.  tests/tc_isgd.rb expects
      a letters-first order instead ("Z" to "0", "9" to "aa"). */
  lemma AdvanceExamples()
    ensures Next(Charset, "a") == Some("b")
    ensures Next(Charset, "z") == Some("A")
    ensures Next(Charset, "Z") == Some("_")
    ensures Next(Charset, "9") == Some("a")
  {
    AdvanceLetter();
    AdvanceToUpper();
    AdvanceToUnderscore();
    AdvanceToLetter();
  }

  // ---------------------------------------------------------------------------
  // fetch

  const StatusMoved := "HTTP/1.1 301 Moved Permanently"
  const StatusNotFound := "HTTP/1.1 404 Not Found"
  const StatusOk := "HTTP/1.1 200 OK"
  const StatusBadGateway := "HTTP/1.1 502 Bad Gateway"
  const ConnectionClose := "Connection: close"

  /** The HEAD request, written with "\n" line ends. */
  function HeadRequest(code: string): (r: string)
    ensures StartsWith(r, "HEAD /" + code + " ")
  {
    var p := "HEAD /" + code + " ";
    var q := "HTTP/1.1\nHost: is.gd\n\n";
    assert (p + q)[..|p|] == p;
    p + q
  }

  /** The GET request, written with "\r\n" line ends. */
  function GetRequest(code: string): (r: string)
    ensures StartsWith(r, "GET /" + code + " ")
  {
    var p := "GET /" + code + " ";
    var q := "HTTP/1.1\r\nHost: is.gd\r\n\r\n";
    assert (p + q)[..|p|] == p;
    p + q
  }

  /** What the server sends, as the successive `gets` calls return it:
      the HEAD header block, then for a 200 answer the GET header block, the
      chunk-size line and the body up to the final chunk; None for nil. */
  datatype Reply = Reply(head: Option<string>, get: Option<string>, chunk: Option<string>, body: Option<string>)

  /** `data.slice!(-7, 7)`: the last seven characters are cut off; a shorter
      string is left alone. */
  function CutTrailer(data: string): (r: string)
    ensures |data| >= 7 ==> |r| == |data| - 7 && r == data[..|r|]
    ensures |data| < 7 ==> r == data
  {
    if |data| >= 7 then data[..|data| - 7] else data
  }

  /** The 301 answer: the Location in the last header line.  With no header
      line Ruby's `headers.last` is nil and `match` raises NoMethodError. */
  function LastLocation(rest: seq<string>): (r: Response)
    ensures |rest| == 0 ==> r == Raise(NoMethodError)
    ensures |rest| > 0 ==> (r.Found? <==> LocationHeader(rest[|rest| - 1]).Some?)
    ensures r.Found? ==> |rest| > 0 && r.url == LocationHeader(rest[|rest| - 1]).value
    ensures |rest| > 0 && !r.Found? ==> r == Raise(Error(FetchError))
  {
    if |rest| == 0 then Raise(NoMethodError)
    else match LocationHeader(rest[|rest| - 1])
      case Some(u) => Found(u)
      case None => Raise(Error(FetchError))
  }

  /** The 200 path (lines 84-115): the GET must again be answered "200 OK",
      the chunk line and body must be there, and `scrape` (the Hpricot
      extraction of a disabled URL's destination, None for FetchError) gets
      the body without its 7-character trailer.  When the GET header read is
      nil, the FetchError it raises is replaced by the NoMethodError of the
      `ensure` clause calling `include?` on nil. */
  function GetOutcome(reply: Reply, scrape: string -> Option<string>): (r: Response)
    ensures reply.get.None? ==> r == Raise(NoMethodError)
    ensures reply.get.Some? && StatusLine(reply.get.value) != Some(StatusOk) ==> r == Raise(Error(FetchError))
    ensures r.Found? <==>
      reply.get.Some? && StatusLine(reply.get.value) == Some(StatusOk) && reply.chunk.Some? && reply.body.Some? &&
      scrape(CutTrailer(reply.body.value)).Some?
    ensures r.Found? ==> r.url == scrape(CutTrailer(reply.body.value)).value
    ensures r.Found? || r == Raise(Error(FetchError)) || r == Raise(NoMethodError)
  {
    if reply.get.None? then Raise(NoMethodError)
    else if StatusLine(reply.get.value) != Some(StatusOk) then Raise(Error(FetchError))
    else if reply.chunk.None? || reply.body.None? then Raise(Error(FetchError))
    else match scrape(CutTrailer(reply.body.value))
      case Some(u) => Found(u)
      case None => Raise(Error(FetchError))
  }

  /** How `fetch` answers. */
  function Outcome(reply: Reply, scrape: string -> Option<string>): (r: Response)
    ensures reply.head.None? ==> r == Raise(Error(FetchError))
    ensures reply.head.Some? && StatusLine(reply.head.value) == Some(StatusMoved) ==> r == LastLocation(HeaderLines(reply.head.value))
    ensures reply.head.Some? && StatusLine(reply.head.value) == Some(StatusOk) ==> r == GetOutcome(reply, scrape)
    ensures r == Raise(Error(NoRedirectError)) <==> reply.head.Some? && StatusLine(reply.head.value) == Some(StatusNotFound)
    ensures r == Raise(Error(CodeBlockedError)) <==> reply.head.Some? && StatusLine(reply.head.value) == Some(StatusBadGateway)
    ensures reply.head.Some? && StatusLine(reply.head.value) !in {Some(StatusMoved), Some(StatusNotFound), Some(StatusOk), Some(StatusBadGateway)} ==>
      r == Raise(Error(FetchError))
  {
    if reply.head.None? then Raise(Error(FetchError))
    else
      var status := StatusLine(reply.head.value);
      if status == Some(StatusMoved) then LastLocation(HeaderLines(reply.head.value))
      else if status == Some(StatusNotFound) then Raise(Error(NoRedirectError))
      else if status == Some(StatusOk) then GetOutcome(reply, scrape)
      else if status == Some(StatusBadGateway) then Raise(Error(CodeBlockedError))
      else Raise(Error(FetchError))
  }

  /** Whether a 200 answer to HEAD leads to the GET exchange. */
  predicate GoesOn(reply: Reply) {
    reply.head.Some? && StatusLine(reply.head.value) == Some(StatusOk)
  }

  /** The header lines the `ensure` clause inspects: those of the last block
      read, and None when that read returned nil. */
  function LastHeaders(reply: Reply): Option<seq<string>> {
    if reply.head.None? then None
    else if !GoesOn(reply) then Some(HeaderLines(reply.head.value))
    else if reply.get.None? then None
    else Some(HeaderLines(reply.get.value))
  }

  /** An is.gd adapter instance and the socket it keeps across fetches. */
  class Client {
    /** `@socket` is set and not closed. */
    var open: bool
    /** The number of `TCPSocket.new` calls so far. */
    var connections: nat

    constructor()
      ensures !open && connections == 0
    {
      open := false;
      connections := 0;
    }

    /** `Isgd#fetch`.  `pipeBroken` says that the first write fails with
        EPIPE (the retry on a new socket succeeds); `reply` is what the reads
        return.  A 200 answer to HEAD carrying "Connection: close" makes the
        GET go out on a new socket; the socket is closed after the last header
        block read when it carries "Connection: close". */
    method Fetch(code: string, pipeBroken: bool, reply: Reply, scrape: string -> Option<string>)
      returns (r: Response, sent: seq<string>)
      modifies this
      ensures r == Outcome(reply, scrape)
      ensures sent == [HeadRequest(code)] + (if GoesOn(reply) then [GetRequest(code)] else [])
      ensures connections == old(connections) + (if old(open) then 0 else 1) + (if pipeBroken then 1 else 0) +
        (if GoesOn(reply) && ConnectionClose in HeaderLines(reply.head.value) then 1 else 0)
      ensures open <==> !(LastHeaders(reply).Some? && ConnectionClose in LastHeaders(reply).value)
    {
      if !open {
        open := true;
        connections := connections + 1;
      }
      sent := [HeadRequest(code)];
      if pipeBroken {
        connections := connections + 1;
      }
      if reply.head.None? {
        return Raise(Error(FetchError)), sent;
      }
      var status := StatusLine(reply.head.value);
      var headers := HeaderLines(reply.head.value);
      if status == Some(StatusMoved) {
        r := LastLocation(headers);
      } else if status == Some(StatusNotFound) {
        r := Raise(Error(NoRedirectError));
      } else if status == Some(StatusOk) {
        if ConnectionClose in headers {
          connections := connections + 1;
        }
        sent := sent + [GetRequest(code)];
        if reply.get.None? {
          // the `ensure` clause fails on nil before it can close anything
          return Raise(NoMethodError), sent;
        }
        headers := HeaderLines(reply.get.value);
        r := GetOutcome(reply, scrape);
      } else if status == Some(StatusBadGateway) {
        r := Raise(Error(CodeBlockedError));
      } else {
        r := Raise(Error(FetchError));
      }
      if ConnectionClose in headers {
        open := false;
      }
    }
  }
}
