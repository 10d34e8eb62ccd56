/** lib/tinyback/services/bitly.rb: the bit.ly adapter. */
module Bitly {
  import opened Wrappers
  import opened RubyText
  import opened Services

  /** "0123456789abcdefghijklmnopqrstuvwxyzABCDEFGHIJKLMNOPQRSTUVWXYZ-_" */
  const Charset := Digits + LowerLetters + UpperLetters + "-_"

  /** A line `/^([A-Za-z0-9\-_]+)$/` matches in full. */
  predicate ValidLine(l: string) {
    |l| >= 1 && InCharset(Charset, l)
  }

  /** The two words bit.ly uses for its own pages. */
  predicate Keyword(code: string) {
    code == "api" || code == "pro"
  }

  /** `Bitly.canonicalize`; None stands for InvalidCodeError.  The code is
      neither rewritten nor cut: it is returned as given. */
  function Canonicalize(code: string): (r: Option<string>)
    ensures r.Some? ==> r.value == code
    ensures r.Some? <==> (exists l :: l in Lines(code) && ValidLine(l)) && !Keyword(code)
  {
    if (exists l :: l in Lines(code) && ValidLine(l)) && !Keyword(code) then Some(code) else None
  }

  /** `Bitly.url`; None when `canonicalize` raises. */
  function Url(code: string): (r: Option<string>)
    ensures r.Some? <==> Canonicalize(code).Some?
    ensures r.Some? ==> r.value == "http://bit.ly/" + code
  {
    match Canonicalize(code)
    case None => None
    case Some(c) => Some("http://bit.ly/" + c)
  }

  /** On a line-free code `canonicalize` accepts exactly the non-empty codes
      over the charset other than the two keywords, and its result lies in
      the charset. */
  lemma CanonicalizeSingleLine(code: string)
    requires '\n' !in code
    ensures Canonicalize(code).Some? <==> ValidLine(code) && !Keyword(code)
    ensures Canonicalize(code).Some? ==> InCharset(Charset, Canonicalize(code).value)
  {
    SplitOnAbsent(code, '\n');
  }

  /** `canonicalize` is idempotent. */
  lemma CanonicalizeIdempotent(code: string)
    requires Canonicalize(code).Some?
    ensures Canonicalize(Canonicalize(code).value) == Canonicalize(code)
  {
  }

  lemma AmpersandOutside()
    ensures '&' !in Charset && '\n' !in "test&"
  {
    PiecesHave('&');
  }

  lemma AmpersandExample(code: string)
    requires code == "test&"
    ensures Canonicalize(code) == None
  {
    AmpersandOutside();
    assert code[4] !in Charset;
    CanonicalizeSingleLine(code);
  }

  lemma KeywordExample(code: string)
    requires code == "api" || code == "pro"
    ensures Canonicalize(code) == None
  {
  }

  /** tests/tc_bitly.rb: a character outside the charset, the empty code and
      the keywords "api" and "pro" are invalid. */
  lemma CanonicalizeExamples()
    ensures Canonicalize("test&") == None
    ensures Canonicalize("") == None
    ensures Canonicalize("api") == None && Canonicalize("pro") == None
  {
    AmpersandExample("test&");
    CanonicalizeSingleLine("");
    KeywordExample("api");
    KeywordExample("pro");
  }

  // ---------------------------------------------------------------------------
  // advance, with bit.ly's 64 symbols

  lemma AdvanceDigit()
    ensures Next(Charset, "0") == Some("1")
  {
    assert IndexOf(Charset, '0') == Some(0) by {
      assert Charset[0] == '0';
    }
    assert Charset[1] == '1';
    NextSingle(Charset, '0', 0);
  }

  lemma AdvanceToLetter()
    ensures Next(Charset, "9") == Some("a")
  {
    assert IndexOf(Charset, '9') == Some(9) by {
      PiecesHave('9');
      SpanIndex('0', 10, 9);
      IndexInFirst(Digits, LowerLetters, UpperLetters, "-_", '9');
    }
    assert Charset[10] == 'a' by {
      assert Charset[10] == LowerLetters[0];
    }
    NextSingle(Charset, '9', 9);
  }

  lemma AdvanceToUpper()
    ensures Next(Charset, "z") == Some("A")
  {
    assert IndexOf(Charset, 'z') == Some(35) by {
      PiecesHave('z');
      SpanIndex('a', 26, 25);
      IndexInSecond(Digits, LowerLetters, UpperLetters, "-_", 'z');
    }
    assert Charset[36] == 'A' by {
      assert Charset[36] == UpperLetters[0];
    }
    NextSingle(Charset, 'z', 35);
  }

  lemma AdvanceToDash()
    ensures Next(Charset, "Z") == Some("-")
  {
    assert IndexOf(Charset, 'Z') == Some(61) by {
      PiecesHave('Z');
      SpanIndex('A', 26, 25);
      IndexInThird(Digits, LowerLetters, UpperLetters, "-_", 'Z');
    }
    assert Charset[62] == '-';
    NextSingle(Charset, 'Z', 61);
  }

  lemma AdvanceToUnderscore()
    ensures Next(Charset, "-") == Some("_")
  {
    assert IndexOf(Charset, '-') == Some(62) by {
      PiecesHave('-');
      assert IndexOf("-_", '-') == Some(0);
      IndexInFourth(Digits, LowerLetters, UpperLetters, "-_", '-');
    }
    assert Charset[63] == '_';
    NextSingle(Charset, '-', 62);
  }

  lemma AdvanceWraps()
    ensures Next(Charset, "_") == Some("00")
  {
    assert Charset[63] == '_' && Charset[0] == '0' && |Charset| == 64;
    NextLastSingle(Charset);
  }

  lemma AdvanceCarries()
    ensures Next(Charset, "0_") == Some("10")
  {
    assert IndexOf(Charset, '0') == Some(0) by {
      assert Charset[0] == '0';
    }
    assert Charset[0] == '0' && Charset[1] == '1' && Charset[63] == '_' && |Charset| == 64;
    NextCarryPair(Charset, '0', 0);
  }

  /** tests/tc_bitly.rb: the successors over bit.ly's 64 symbols. */
  lemma AdvanceExamples()
    ensures Next(Charset, "0") == Some("1") && Next(Charset, "9") == Some("a")
    ensures Next(Charset, "z") == Some("A") && Next(Charset, "Z") == Some("-")
    ensures Next(Charset, "-") == Some("_") && Next(Charset, "_") == Some("00")
    ensures Next(Charset, "0_") == Some("10")
  {
    AdvanceDigit();
    AdvanceToLetter();
    AdvanceToUpper();
    AdvanceToDash();
    AdvanceToUnderscore();
    AdvanceWraps();
    AdvanceCarries();
  }

  // ---------------------------------------------------------------------------
  // fetch

  const StatusMoved := "HTTP/1.1 301 Moved"
  const StatusFound := "HTTP/1.1 302 Found"
  const StatusForbidden := "HTTP/1.1 403 Forbidden"
  const StatusNotFound := "HTTP/1.1 404 Not Found"
  const ConnectionClose := "Connection: close"

  /** The request `fetch` writes; the code is sent as given. */
  function Request(code: string): (r: string)
    ensures StartsWith(r, "HEAD /" + code + " ")
  {
    var p := "HEAD /" + code + " ";
    var q := "HTTP/1.1\nHost: j.mp\nCookie: _bit=0\n\n";
    assert (p + q)[..|p|] == p;
    p + q
  }

  /** The parts of a parsed URI `fetch` looks at; None where Ruby has nil. */
  datatype Uri = Uri(scheme: Option<string>, host: Option<string>, path: Option<string>, query: Option<string>)

  /** `headers[-3].match(/^Location: (.*)$/)` and its capture: Ruby's
      `headers[-3]` is nil with fewer than three headers, and nil has no
      `match` method; no match raises FetchError. */
  function Located(rest: seq<string>): (r: Response)
    ensures |rest| < 3 ==> r == Raise(NoMethodError)
    ensures |rest| >= 3 ==> (r.Found? <==> LocationHeader(rest[|rest| - 3]).Some?)
    ensures r.Found? ==> |rest| >= 3 && r.url == LocationHeader(rest[|rest| - 3]).value
    ensures |rest| >= 3 && !r.Found? ==> r == Raise(Error(FetchError))
  {
    if |rest| < 3 then Raise(NoMethodError)
    else match LocationHeader(rest[|rest| - 3])
      case Some(u) => Found(u)
      case None => Raise(Error(FetchError))
  }

  /** The `url` parameter of a 302 target accepted as bit.ly's warning page
      for `code`: http://bit.ly/a/warning, whose `hash` is the code and which
      carries a `url` (lines 91-96).  `parseUri` is `URI.parse` (None when it
      raises), `parseQuery` is `CGI.parse`, whose hash yields [] for a
      missing key. */
  function Warning(code: string, target: string, parseUri: string -> Option<Uri>,
                   parseQuery: string -> map<string, seq<string>>): (r: Response)
    ensures r.Found? <==>
      (parseUri(target).Some? &&
       var u := parseUri(target).value;
       u.scheme == Some("http") && u.host == Some("bit.ly") && u.path == Some("/a/warning") &&
       u.query.Some? &&
       var p := parseQuery(u.query.value);
       "hash" in p && |p["hash"]| > 0 && p["hash"][0] == code && "url" in p && |p["url"]| > 0)
    ensures r.Found? ==> r.url == Strip(parseQuery(parseUri(target).value.query.value)["url"][0])
    ensures r.Found? || r == Raise(Error(FetchError)) || r == Raise(NoMethodError) || r == Raise(OtherException)
  {
    match parseUri(target)
    case None => Raise(OtherException)
    case Some(u) =>
      if !(u.scheme == Some("http") && u.host == Some("bit.ly") && u.path == Some("/a/warning")) then
        Raise(Error(FetchError))
      else if u.query.None? then Raise(NoMethodError)
      else
        var p := parseQuery(u.query.value);
        var hash := if "hash" in p then p["hash"] else [];
        if |hash| == 0 || hash[0] != code then Raise(Error(FetchError))
        else if "url" !in p then Raise(Error(FetchError))
        else if |p["url"]| == 0 then Raise(NoMethodError)
        else Found(Strip(p["url"][0]))
  }

  /** How `fetch` answers the header block `gets` returned (None for nil). */
  function Classify(code: string, headers: Option<string>, parseUri: string -> Option<Uri>,
                    parseQuery: string -> map<string, seq<string>>): (r: Response)
    ensures headers.None? ==> r == Raise(Error(FetchError))
    ensures headers.Some? && StatusLine(headers.value) == Some(StatusMoved) ==> r == Located(HeaderLines(headers.value))
    ensures headers.Some? && StatusLine(headers.value) == Some(StatusFound) ==>
      match Located(HeaderLines(headers.value))
      case Found(target) => r == Warning(code, target, parseUri, parseQuery)
      case Raise(e) => r == Raise(e)
    ensures r == Raise(Error(ServiceBlockedError)) <==> headers.Some? && StatusLine(headers.value) == Some(StatusForbidden)
    ensures r == Raise(Error(NoRedirectError)) <==> headers.Some? && StatusLine(headers.value) == Some(StatusNotFound)
    ensures headers.Some? && StatusLine(headers.value) !in {Some(StatusMoved), Some(StatusFound), Some(StatusForbidden), Some(StatusNotFound)} ==>
      r == Raise(Error(FetchError))
    ensures r.Found? ==> headers.Some? && StatusLine(headers.value) in {Some(StatusMoved), Some(StatusFound)}
  {
    if headers.None? then Raise(Error(FetchError))
    else
      var status := StatusLine(headers.value);
      var rest := HeaderLines(headers.value);
      if status == Some(StatusMoved) then Located(rest)
      else if status == Some(StatusFound) then
        (match Located(rest)
         case Found(target) => Warning(code, target, parseUri, parseQuery)
         case Raise(e) => Raise(e))
      else if status == Some(StatusForbidden) then Raise(Error(ServiceBlockedError))
      else if status == Some(StatusNotFound) then Raise(Error(NoRedirectError))
      else Raise(Error(FetchError))
  }

  /** Whether the `ensure` clause closes the socket after this block. */
  predicate Closes(headers: Option<string>) {
    headers.Some? && ConnectionClose in HeaderLines(headers.value)
  }

  /** A bit.ly adapter instance and the one socket it keeps across fetches. */
  class Client {
    /** `@socket` is set and not closed. */
    var open: bool
    /** The number of `TCPSocket.new` calls so far. */
    var connections: nat

    constructor()
      ensures !open && connections == 0
    {
      open := false;
      connections := 0;
    }

    /** `Bitly#fetch`.  The transport is given as inputs: `pipeBroken` says
        that the first write fails with EPIPE (the retry on a new socket then
        succeeds), `headers` is what `gets("\r\n\r\n")` returns. */
    method Fetch(code: string, pipeBroken: bool, headers: Option<string>,
                 parseUri: string -> Option<Uri>, parseQuery: string -> map<string, seq<string>>)
      returns (r: Response, request: string)
      modifies this
      ensures request == Request(code)
      ensures r == Classify(code, headers, parseUri, parseQuery)
      ensures connections == old(connections) + (if old(open) then 0 else 1) + (if pipeBroken then 1 else 0)
      ensures open <==> !Closes(headers)
    {
      if !open {
        open := true;
        connections := connections + 1;
      }
      request := Request(code);
      if pipeBroken {
        connections := connections + 1;
      }
      if headers.None? {
        return Raise(Error(FetchError)), request;
      }
      r := Classify(code, headers, parseUri, parseQuery);
      if ConnectionClose in HeaderLines(headers.value) {
        open := false;
      }
    }
  }
}
