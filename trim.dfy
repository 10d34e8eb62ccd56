/** lib/tinyback/services/trim.rb: the tr.im adapter. */
module Trim {
  import opened Wrappers
  import opened RubyText
  import opened Services

  /** "0123456789abcdefghijklmnopqrstuvwxyz_" */
  const Charset := Digits + LowerLetters + "_"

  /** A character of the class `[A-Za-z0-9_]`. */
  predicate WordChar(x: char) {
    'A' <= x <= 'Z' || 'a' <= x <= 'z' || '0' <= x <= '9' || x == '_'
  }

  /** `gsub(/[^A-Za-z0-9_]/, "")`: every character outside the class
      deleted. */
  function KeepWord(s: string): string {
    if |s| == 0 then [] else (if WordChar(s[0]) then [s[0]] else []) + KeepWord(s[1..])
  }

  /** Only class characters are kept, and a string of them is kept whole. */
  lemma {:induction false} KeepWordOnly(s: string)
    ensures forall i :: 0 <= i < |KeepWord(s)| ==> WordChar(KeepWord(s)[i])
    ensures (forall i :: 0 <= i < |s| ==> WordChar(s[i])) ==> KeepWord(s) == s
  {
    if |s| > 0 {
      KeepWordOnly(s[1..]);
      assert [s[0]] + s[1..] == s;
    }
  }

  /** Deleting characters works piece by piece. */
  lemma {:induction false} KeepWordAppend(a: string, b: string)
    ensures KeepWord(a + b) == KeepWord(a) + KeepWord(b)
  {
    if |a| > 0 {
      assert (a + b)[1..] == a[1..] + b;
      KeepWordAppend(a[1..], b);
    } else {
      assert a + b == b;
    }
  }

  /** What `canonicalize` computes: the text before the first ".", with
      everything outside `[A-Za-z0-9_]` deleted, lowercased.  Ruby's
      `split(".").first.to_s` is that text too when it is empty, since
      `split` then returns no field at all and nil becomes "". */
  function Normalize(code: string): string {
    Downcase(KeepWord(BeforeFirst(code, '.')))
  }

  /** `Trim.canonicalize`; None stands for InvalidCodeError. */
  function Canonicalize(code: string): (r: Option<string>)
    ensures r.None? <==> Normalize(code) == ""
    ensures r.Some? ==> r.value == Normalize(code)
  {
    var c := Normalize(code);
    if c == "" then None else Some(c)
  }

  /** `Trim.url`; None when `canonicalize` raises. */
  function Url(code: string): (r: Option<string>)
    ensures r.Some? <==> Canonicalize(code).Some?
    ensures r.Some? ==> r.value == "http://tr.im/" + Canonicalize(code).value
  {
    match Canonicalize(code)
    case None => None
    case Some(c) => Some("http://tr.im/" + c)
  }

  /** Which characters the charset holds. */
  lemma CharsetHas(x: char)
    ensures x in Charset <==> '0' <= x <= '9' || 'a' <= x <= 'z' || x == '_'
  {
    PiecesHave(x);
  }

  /** The rewritten code lies in the charset and holds no ".". */
  lemma NormalizeInCharset(code: string)
    ensures InCharset(Charset, Normalize(code)) && '.' !in Normalize(code)
  {
    KeepWordOnly(BeforeFirst(code, '.'));
    var c := Normalize(code);
    forall i | 0 <= i < |c| ensures c[i] in Charset {
      CharsetHas(c[i]);
    }
  }

  /** `canonicalize` is idempotent. */
  lemma CanonicalizeIdempotent(code: string)
    requires Canonicalize(code).Some?
    ensures Canonicalize(Canonicalize(code).value) == Canonicalize(code)
  {
    var c := Canonicalize(code).value;
    NormalizeInCharset(code);
    assert forall i :: 0 <= i < |c| ==> WordChar(c[i]) && !('A' <= c[i] <= 'Z') by {
      forall i | 0 <= i < |c| ensures WordChar(c[i]) && !('A' <= c[i] <= 'Z') {
        CharsetHas(c[i]);
      }
    }
    BeforeFirstAbsent(c, '.');
    KeepWordOnly(c);
    assert Downcase(c) == c;
  }

  lemma TestIsClean()
    ensures KeepWord("test") == "test" && Downcase("test") == "test"
  {
    CleanKept("test");
  }

  /** A string of lowercase class characters comes through unchanged. */
  lemma CleanKept(s: string)
    requires s == "test"
    ensures KeepWord(s) == s && Downcase(s) == s
  {
    assert forall i :: 0 <= i < |s| ==> WordChar(s[i]) && !('A' <= s[i] <= 'Z');
    KeepWordOnly(s);
    assert Downcase(s) == s;
  }

  lemma CaseFacts()
    ensures BeforeFirst("TEsT", '.') == "TEsT" && KeepWord("TEsT") == "TEsT" && Downcase("TEsT") == "test"
  {
    assert '.' !in "TEsT";
    BeforeFirstAbsent("TEsT", '.');
  }

  lemma CaseExample(code: string)
    requires code == "TEsT"
    ensures Canonicalize(code) == Some("test")
  {
    CaseFacts();
  }

  lemma PercentFacts()
    ensures BeforeFirst("te%st/", '.') == "te%st/" && KeepWord("te%st/") == "test"
  {
    assert '.' !in "te%st/";
    BeforeFirstAbsent("te%st/", '.');
    PercentKept("te%st/");
  }

  lemma PercentKept(s: string)
    requires s == "te%st/"
    ensures KeepWord(s) == "test"
  {
    assert s == "te%" + "st/";
    KeepWordAppend("te%", "st/");
  }

  lemma PercentExample(code: string)
    requires code == "te%st/"
    ensures Canonicalize(code) == Some("test")
  {
    PercentFacts();
    TestIsClean();
  }

  lemma DashesCut()
    ensures BeforeFirst("-te-%-st-", '.') == "-te-%-st-"
  {
    assert '.' !in "-te-%-st-";
    BeforeFirstAbsent("-te-%-st-", '.');
  }

  lemma DashesKept()
    ensures KeepWord("-te-%-st-") == "test"
  {
    DashesPiecesKept("-te-%-st-");
  }

  lemma DashesPiecesKept(s: string)
    requires s == "-te-%-st-"
    ensures KeepWord(s) == "test"
  {
    assert s == "-te" + ("-%-" + "st-");
    KeepWordAppend("-%-", "st-");
    KeepWordAppend("-te", "-%-" + "st-");
  }

  lemma DashesExample(code: string)
    requires code == "-te-%-st-"
    ensures Canonicalize(code) == Some("test")
  {
    DashesCut();
    DashesKept();
    TestIsClean();
  }

  lemma DotCut()
    ensures BeforeFirst("test.bla", '.') == "test"
  {
  }

  lemma DotExample(code: string)
    requires code == "test.bla"
    ensures Canonicalize(code) == Some("test")
  {
    DotCut();
    TestIsClean();
  }

  lemma MixedCut()
    ensures BeforeFirst("Te-St_.B&lA", '.') == "Te-St_"
  {
  }

  lemma MixedKept()
    ensures KeepWord("Te-St_") == "TeSt_"
  {
  }

  lemma MixedLowered()
    ensures Downcase("TeSt_") == "test_"
  {
  }

  lemma MixedExample(code: string)
    requires code == "Te-St_.B&lA"
    ensures Canonicalize(code) == Some("test_")
  {
    MixedCut();
    MixedKept();
    MixedLowered();
  }

  lemma NothingLeftFacts()
    ensures KeepWord(BeforeFirst("--/", '.')) == ""
    ensures BeforeFirst(".test", '.') == "" && BeforeFirst("", '.') == ""
  {
  }

  /** tests/tc_trim.rb: case is folded, characters outside the class are
      dropped, everything from the first dot on is ignored; the empty code,
      a code of only invalid characters and a leading dot are invalid. */
  lemma CanonicalizeExamples()
    ensures Canonicalize("TEsT") == Some("test")
    ensures Canonicalize("te%st/") == Some("test")
    ensures Canonicalize("-te-%-st-") == Some("test")
    ensures Canonicalize("test.bla") == Some("test")
    ensures Canonicalize("Te-St_.B&lA") == Some("test_")
    ensures Canonicalize("") == None && Canonicalize("--/") == None && Canonicalize(".test") == None
  {
    CaseExample("TEsT");
    PercentExample("te%st/");
    DashesExample("-te-%-st-");
    DotExample("test.bla");
    MixedExample("Te-St_.B&lA");
    NothingLeftFacts();
  }

  // ---------------------------------------------------------------------------
  // advance, with tr.im's 37 symbols

  lemma AdvanceDigit()
    ensures Next(Charset, "0") == Some("1")
  {
    assert IndexOf(Charset, '0') == Some(0) by {
      assert Charset[0] == '0';
    }
    assert Charset[1] == '1';
    NextSingle(Charset, '0', 0);
  }

  lemma AdvanceToLetter()
    ensures Next(Charset, "9") == Some("a")
  {
    assert IndexOf(Charset, '9') == Some(9) by {
      PiecesHave('9');
      SpanIndex('0', 10, 9);
      IndexOfConcat(Digits, LowerLetters, '9');
      IndexOfConcat(Digits + LowerLetters, "_", '9');
    }
    assert Charset[10] == 'a' by {
      assert Charset[10] == LowerLetters[0];
    }
    NextSingle(Charset, '9', 9);
  }

  lemma AdvanceToUnderscore()
    ensures Next(Charset, "z") == Some("_")
  {
    assert IndexOf(Charset, 'z') == Some(35) by {
      PiecesHave('z');
      SpanIndex('a', 26, 25);
      IndexOfConcat(Digits, LowerLetters, 'z');
      IndexOfConcat(Digits + LowerLetters, "_", 'z');
    }
    assert Charset[36] == '_';
    NextSingle(Charset, 'z', 35);
  }

  lemma AdvanceWraps()
    ensures Next(Charset, "_") == Some("00")
  {
    assert Charset[36] == '_' && Charset[0] == '0' && |Charset| == 37;
    NextLastSingle(Charset);
  }

  lemma AdvanceCarries()
    ensures Next(Charset, "0_") == Some("10")
  {
    assert IndexOf(Charset, '0') == Some(0) by {
      assert Charset[0] == '0';
    }
    assert Charset[0] == '0' && Charset[1] == '1' && Charset[36] == '_' && |Charset| == 37;
    NextCarryPair(Charset, '0', 0);
  }

  /** tests/tc_trim.rb: the successors over tr.im's 37 symbols. */
  lemma AdvanceExamples()
    ensures Next(Charset, "0") == Some("1") && Next(Charset, "9") == Some("a")
    ensures Next(Charset, "z") == Some("_") && Next(Charset, "_") == Some("00")
    ensures Next(Charset, "0_") == Some("10")
  {
    AdvanceDigit();
    AdvanceToLetter();
    AdvanceToUnderscore();
    AdvanceWraps();
    AdvanceCarries();
  }

  // ---------------------------------------------------------------------------
  // fetch

  const StatusMoved := "HTTP/1.1 301 Moved Permanently"
  const Home := "http://tr.im"

  /** The page tr.im serves instead of an answer when it is unavailable. */
  const BlockedPage := "<!DOCTYPE html PUBLIC \"-//W3C//DTD XHTML 1.1//EN\" \"http://www.w3.org/TR/xhtml11/DTD/xhtml11.dtd\">\n<html>\n<head>\n  <title>TR.IM NOT AVAILABLE</title>\n</head>\n<body>\n  TR.IM SERVERS NOT AVAILABLE\n</body>\n</html>\n\n"

  /** The request `fetch` writes; the code is sent as given. */
  function Request(code: string): (r: string)
    ensures StartsWith(r, "HEAD /" + code + " ")
  {
    var p := "HEAD /" + code + " ";
    var q := "HTTP/1.1\nHost: tr.im\nCookie: _trim=0\n\n";
    assert (p + q)[..|p|] == p;
    p + q
  }

  /** How `fetch` answers the whole response (`gets nil`, None for nil).  The
      Location is looked for in the fifth header line after the status only;
      with fewer lines Ruby's `headers[4]` is nil and `match` raises
      NoMethodError.  A redirect to tr.im's home page means the code is
      unused. */
  function Classify(response: Option<string>): (r: Response)
    ensures response.None? ==> r == Raise(Error(FetchError))
    ensures r == Raise(Error(ServiceBlockedError)) <==> response == Some(BlockedPage)
    ensures r.Found? <==>
      response.Some? && response.value != BlockedPage && StatusLine(response.value) == Some(StatusMoved) &&
      |HeaderLines(response.value)| > 4 && LocationHeader(HeaderLines(response.value)[4]).Some? &&
      LocationHeader(HeaderLines(response.value)[4]).value != Home
    ensures r.Found? ==> r.url == LocationHeader(HeaderLines(response.value)[4]).value
    ensures r == Raise(Error(NoRedirectError)) <==>
      response.Some? && response.value != BlockedPage && StatusLine(response.value) == Some(StatusMoved) &&
      |HeaderLines(response.value)| > 4 && LocationHeader(HeaderLines(response.value)[4]) == Some(Home)
    ensures response.Some? && response.value != BlockedPage && StatusLine(response.value) != Some(StatusMoved) ==>
      r == Raise(Error(FetchError))
    ensures r == Raise(NoMethodError) <==>
      response.Some? && response.value != BlockedPage && StatusLine(response.value) == Some(StatusMoved) &&
      |HeaderLines(response.value)| <= 4
  {
    if response.None? then Raise(Error(FetchError))
    else if response.value == BlockedPage then Raise(Error(ServiceBlockedError))
    else if StatusLine(response.value) != Some(StatusMoved) then Raise(Error(FetchError))
    else
      var headers := HeaderLines(response.value);
      if |headers| <= 4 then Raise(NoMethodError)
      else match LocationHeader(headers[4])
        case None => Raise(Error(FetchError))
        case Some(u) => if u == Home then Raise(Error(NoRedirectError)) else Found(u)
  }
}
