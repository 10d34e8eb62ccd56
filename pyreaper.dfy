/** tinyback/__init__.py: the Python reaper, which fetches every code of a
    generator with up to three tries under a token-bucket rate limit, and
    the service tester, which checks a service against a fixture file of
    `code|expected` lines. */
module PyReaper {
  import opened Wrappers
  import opened RubyText

  // ---------------------------------------------------------------------------
  // The exception classes of tinyback/exceptions.py

  datatype ExceptionClass =
    | ServiceException
    | FetchException
    | BlockedException
    | NoRedirectException
    | CodeBlockedException

  /** The class each exception class derives from. */
  function Base(c: ExceptionClass): Option<ExceptionClass> {
    match c
    case ServiceException => None
    case CodeBlockedException => Some(NoRedirectException)
    case _ => Some(ServiceException)
  }

  function Depth(c: ExceptionClass): nat {
    match c
    case ServiceException => 0
    case CodeBlockedException => 2
    case _ => 1
  }

  /** `isinstance(e, k)` for an exception of class `c`. */
  predicate IsInstance(c: ExceptionClass, k: ExceptionClass)
    decreases Depth(c)
  {
    c == k || (Base(c).Some? && IsInstance(Base(c).value, k))
  }

  /** Every class is a ServiceException; the only other subclass relation is
      CodeBlockedException below NoRedirectException. */
  lemma InstanceOf(c: ExceptionClass, k: ExceptionClass)
    ensures IsInstance(c, k) <==>
      c == k || k == ServiceException || (c == CodeBlockedException && k == NoRedirectException)
  {
  }

  /** What `self._service.fetch(code)` does: return a URL, raise a service
      exception, or raise anything else, which no `except` clause catches. */
  datatype Result = Url(url: string) | Raised(c: ExceptionClass) | Crash

  // ---------------------------------------------------------------------------
  // The token bucket of `_rate_limit`

  /** `rate_limit or (5, 5)`: requests per period, and the period. */
  function Settings(rateLimit: Option<(int, int)>): (s: (int, int))
    ensures rateLimit.None? ==> s == (5, 5)
    ensures rateLimit.Some? ==> s == rateLimit.value
  {
    if rateLimit.Some? then rateLimit.value else (5, 5)
  }

  /** `_rate_limit_bucket` and `_rate_limit_next`. */
  datatype Bucket = Bucket(tokens: int, next: real)

  function Max(a: real, b: real): real {
    if a >= b then a else b
  }

  /** One call of `_rate_limit` at time `now`: the bucket after it and the
      time the caller resumes.  A non-empty bucket loses a token and the
      caller goes on at once; an empty one makes the caller sleep until
      `next`, then is refilled to `limit - 1` tokens with the next refill
      one period after the resumption. */
  function Tick(b: Bucket, now: real, s: (int, int)): (r: (Bucket, real))
    ensures r.1 >= now
    ensures b.tokens > 0 ==> r.0.next == b.next
    ensures b.tokens <= 0 ==> r.1 >= b.next && r.0.next == r.1 + s.1 as real
  {
    if b.tokens > 0 then (Bucket(b.tokens - 1, b.next), now)
    else
      var resume := Max(now, b.next);
      (Bucket(s.0 - 1, resume + s.1 as real), resume)
  }

  /** One `_rate_limit` call, made at `time`, and whether the fetch after it
      raised a BlockedException. */
  datatype Request = Request(time: real, blocked: bool)

  /** A call and the fetch after it: `Tick`, then `_rate_limit_bucket = 0`
      when the service is blocking. The caller resumes as `Tick` says. */
  function Apply(b: Bucket, q: Request, s: (int, int)): (Bucket, real) {
    var (b', resume) := Tick(b, q.time, s);
    (if q.blocked then Bucket(0, b'.next) else b', resume)
  }

  /** The bucket after the calls `reqs`, from bucket `b`. */
  function Replay(b: Bucket, reqs: seq<Request>, s: (int, int)): Bucket
    decreases |reqs|
  {
    if |reqs| == 0 then b else Apply(Replay(b, reqs[..|reqs| - 1], s), reqs[|reqs| - 1], s).0
  }

  lemma ReplayStep(b: Bucket, reqs: seq<Request>, s: (int, int), j: nat)
    requires j < |reqs|
    ensures Replay(b, reqs[..j + 1], s) == Apply(Replay(b, reqs[..j], s), reqs[j], s).0
  {
    assert reqs[..j + 1][..j] == reqs[..j];
  }

  /** Replaying two series of calls one after the other is replaying both. */
  lemma {:induction false} ReplayConcat(b: Bucket, xs: seq<Request>, ys: seq<Request>, s: (int, int))
    ensures Replay(b, xs + ys, s) == Replay(Replay(b, xs, s), ys, s)
    decreases |ys|
  {
    if |ys| == 0 {
      assert xs + ys == xs;
    } else {
      var ys' := ys[..|ys| - 1];
      assert (xs + ys)[..|xs + ys| - 1] == xs + ys';
      ReplayConcat(b, xs, ys', s);
    }
  }

  /** Call `j` of `reqs` finds the bucket empty and refills it. */
  ghost predicate Refills(b: Bucket, reqs: seq<Request>, s: (int, int), j: nat)
    requires j < |reqs|
  {
    Replay(b, reqs[..j], s).tokens <= 0
  }

  /** The time call `j` of `reqs` lets its caller go on. */
  ghost function Resume(b: Bucket, reqs: seq<Request>, s: (int, int), j: nat): real
    requires j < |reqs|
  {
    Apply(Replay(b, reqs[..j], s), reqs[j], s).1
  }

  /** A call with a token left does not delay its caller. */
  lemma TokenNoWait(b: Bucket, reqs: seq<Request>, s: (int, int), j: nat)
    requires j < |reqs| && !Refills(b, reqs, s, j)
    ensures Resume(b, reqs, s, j) == reqs[j].time
  {
  }

  /** After a BlockedException the bucket is empty, so the next call is a
      refill and waits for the refill time. */
  lemma BlockedWaits(b: Bucket, reqs: seq<Request>, s: (int, int), j: nat)
    requires j + 1 < |reqs| && reqs[j].blocked
    ensures Replay(b, reqs[..j + 1], s).tokens == 0
    ensures Refills(b, reqs, s, j + 1)
    ensures Resume(b, reqs, s, j + 1) >= Replay(b, reqs[..j + 1], s).next
  {
    ReplayStep(b, reqs, s, j);
  }

  /** The calls after a refill and before the next: the refill time stays
      one period after the refill's resumption, and the tokens fall by at
      least one a call. */
  lemma {:induction false} BetweenRefills(b: Bucket, reqs: seq<Request>, s: (int, int), i: nat, j: nat)
    requires i < j <= |reqs| && Refills(b, reqs, s, i)
    requires forall k :: i < k < j ==> !Refills(b, reqs, s, k)
    ensures Replay(b, reqs[..j], s).next == Resume(b, reqs, s, i) + s.1 as real
    ensures Replay(b, reqs[..j], s).tokens <= (if s.0 >= 1 then s.0 else 1) - (j - i)
    decreases j
  {
    ReplayStep(b, reqs, s, j - 1);
    if j > i + 1 {
      BetweenRefills(b, reqs, s, i, j - 1);
      assert !Refills(b, reqs, s, j - 1);
    }
  }

  /** The rate limit holds, BlockedExceptions included: of two refills with
      none between them, the later lets its caller go on at least one period
      after the earlier, and at most `limit` calls (at least one) start from
      the earlier on. */
  lemma RefillsPeriodApart(b: Bucket, reqs: seq<Request>, s: (int, int), i: nat, j: nat)
    requires i < j < |reqs| && Refills(b, reqs, s, i) && Refills(b, reqs, s, j)
    requires forall k :: i < k < j ==> !Refills(b, reqs, s, k)
    ensures Resume(b, reqs, s, j) >= Resume(b, reqs, s, i) + s.1 as real
    ensures j - i <= if s.0 >= 1 then s.0 else 1
  {
    BetweenRefills(b, reqs, s, i, j);
    if j > i + 1 {
      BetweenRefills(b, reqs, s, i, j - 1);
      ReplayStep(b, reqs, s, j - 1);
      assert !Refills(b, reqs, s, j - 1);
    }
  }

  /** After a refill with a limit of at least one, and no BlockedException,
      the calls only count the tokens down and keep the refill time. */
  lemma {:induction false} AfterRefill(b: Bucket, reqs: seq<Request>, s: (int, int), i: nat, j: nat)
    requires s.0 >= 1 && i <= j < |reqs| && j < i + s.0
    requires Refills(b, reqs, s, i)
    requires forall k :: i <= k <= j ==> !reqs[k].blocked
    ensures forall k :: i < k <= j ==> !Refills(b, reqs, s, k)
    ensures Replay(b, reqs[..j + 1], s) == Bucket(s.0 - 1 - (j - i), Resume(b, reqs, s, i) + s.1 as real)
    decreases j - i
  {
    ReplayStep(b, reqs, s, j);
    if j > i {
      AfterRefill(b, reqs, s, i, j - 1);
    }
  }

  /** Without BlockedExceptions the refills come exactly `limit` calls
      apart. */
  lemma RefillsApart(b: Bucket, reqs: seq<Request>, s: (int, int), i: nat)
    requires s.0 >= 1 && i + s.0 < |reqs|
    requires Refills(b, reqs, s, i)
    requires forall k :: i <= k < i + s.0 ==> !reqs[k].blocked
    ensures forall k :: i < k < i + s.0 ==> !Refills(b, reqs, s, k)
    ensures Refills(b, reqs, s, i + s.0)
    ensures Resume(b, reqs, s, i + s.0) >= Resume(b, reqs, s, i) + s.1 as real
  {
    AfterRefill(b, reqs, s, i, i + s.0 - 1);
  }

  // ---------------------------------------------------------------------------
  // The retry loop of `Reaper.run`

  const MaxTries := 3

  /** Where the tries for one code end: the line written (empty when none),
      whether an exception escaped `run`, and the tries made. */
  datatype CodeRun = CodeRun(line: string, crash: bool, tries: nat)

  /** The `for i in range(MAX_TRIES)` loop from try `i`. */
  function TryFrom(code: string, fetch: (string, nat) -> Result, i: nat): CodeRun
    requires i < MaxTries
    decreases MaxTries - i
  {
    match fetch(code, i)
    case Crash => CodeRun("", true, i + 1)
    case Raised(c) =>
      if IsInstance(c, NoRedirectException) then CodeRun("", false, i + 1)
      else if i + 1 < MaxTries then TryFrom(code, fetch, i + 1)
      else CodeRun("", false, i + 1)
    case Url(u) =>
      CodeRun(if '\n' in u || '\r' in u then "" else code + "|" + u + "\n", false, i + 1)
  }

  /** The tries for a code: between one and three, ended early only by a
      URL, a NoRedirectException (CodeBlockedException included) or an
      escaping exception; a line is written only for a URL without a CR or
      LF, and it is the code, "|", the URL and a newline. */
  lemma {:induction false} TryFromEnds(code: string, fetch: (string, nat) -> Result, i: nat)
    requires i < MaxTries
    ensures var r := TryFrom(code, fetch, i);
      && i < r.tries <= MaxTries
      && (r.crash <==> fetch(code, r.tries - 1).Crash?)
      && (r.line != "" <==> (fetch(code, r.tries - 1).Url? && '\n' !in fetch(code, r.tries - 1).url
            && '\r' !in fetch(code, r.tries - 1).url))
      && (r.line != "" ==> r.line == code + "|" + fetch(code, r.tries - 1).url + "\n")
      && (r.tries < MaxTries ==> (!fetch(code, r.tries - 1).Raised? ||
            IsInstance(fetch(code, r.tries - 1).c, NoRedirectException)))
      && (forall k :: i <= k < r.tries - 1 ==>
            fetch(code, k).Raised? && !IsInstance(fetch(code, k).c, NoRedirectException))
    decreases MaxTries - i
  {
    match fetch(code, i)
    case Raised(c) =>
      if !IsInstance(c, NoRedirectException) && i + 1 < MaxTries {
        TryFromEnds(code, fetch, i + 1);
      }
    case _ =>
  }

  /** What `run` writes for `codes` and whether an exception escaped it; the
      codes after that exception are never fetched. */
  function Harvest(codes: seq<string>, fetch: (string, nat) -> Result): (r: (string, bool)) {
    if |codes| == 0 then ("", false)
    else
      var (out, crashed) := Harvest(codes[..|codes| - 1], fetch);
      if crashed then (out, true)
      else
        var run := TryFrom(codes[|codes| - 1], fetch, 0);
        (out + run.line, run.crash)
  }

  lemma HarvestSnoc(codes: seq<string>, fetch: (string, nat) -> Result, k: nat)
    requires k < |codes|
    ensures Harvest(codes[..k + 1], fetch) ==
      var (out, crashed) := Harvest(codes[..k], fetch);
      if crashed then (out, true)
      else (out + TryFrom(codes[k], fetch, 0).line, TryFrom(codes[k], fetch, 0).crash)
  {
    assert codes[..k + 1][..k] == codes[..k];
  }

  /** Once an exception has escaped, the rest of the codes change nothing. */
  lemma {:induction false} HarvestStops(codes: seq<string>, fetch: (string, nat) -> Result, clock: nat -> real, k: nat)
    requires k <= |codes| && Harvest(codes[..k], fetch).1
    ensures Harvest(codes, fetch) == Harvest(codes[..k], fetch)
    ensures Requests(codes, fetch, clock) == Requests(codes[..k], fetch, clock)
    decreases |codes| - k
  {
    if k < |codes| {
      HarvestSnoc(codes, fetch, k);
      RequestsSnoc(codes, fetch, clock, k);
      HarvestStops(codes, fetch, clock, k + 1);
    } else {
      assert codes[..k] == codes;
    }
  }

  /** The `_rate_limit` calls of the tries for `code`, the first made as
      call number `calls` of the clock. */
  function CodeRequests(code: string, fetch: (string, nat) -> Result, clock: nat -> real, calls: nat, n: nat)
    : (r: seq<Request>)
    ensures |r| == n
    ensures forall k :: 0 <= k < n ==> r[k].time == clock(calls + k)
  {
    seq(n, k requires 0 <= k < n => Request(clock(calls + k), fetch(code, k) == Raised(BlockedException)))
  }

  /** One more try adds one call to the replay: `_rate_limit`, which takes
      the bucket from `before` to `ticked`, and the reset of a
      BlockedException. */
  lemma CodeRequestsStep(b: Bucket, code: string, fetch: (string, nat) -> Result, clock: nat -> real,
                         calls: nat, i: nat, s: (int, int), before: Bucket, ticked: Bucket)
    requires before == Replay(b, CodeRequests(code, fetch, clock, calls, i), s)
    requires ticked == Tick(before, clock(calls + i), s).0
    ensures fetch(code, i) == Raised(BlockedException) ==>
      Replay(b, CodeRequests(code, fetch, clock, calls, i + 1), s) == Bucket(0, ticked.next)
    ensures fetch(code, i) != Raised(BlockedException) ==>
      Replay(b, CodeRequests(code, fetch, clock, calls, i + 1), s) == ticked
  {
    var reqs := CodeRequests(code, fetch, clock, calls, i + 1);
    assert reqs[..i] == CodeRequests(code, fetch, clock, calls, i);
    ReplayStep(b, reqs, s, i);
    assert reqs[..i + 1] == reqs;
  }

  /** The `_rate_limit` calls of `run` over `codes`, up to the exception that
      escapes it, if one does. */
  function Requests(codes: seq<string>, fetch: (string, nat) -> Result, clock: nat -> real): (r: seq<Request>)
  {
    if |codes| == 0 then []
    else
      var init := codes[..|codes| - 1];
      var before := Requests(init, fetch, clock);
      if Harvest(init, fetch).1 then before
      else before + CodeRequests(codes[|codes| - 1], fetch, clock, |before|, TryFrom(codes[|codes| - 1], fetch, 0).tries)
  }

  lemma RequestsSnoc(codes: seq<string>, fetch: (string, nat) -> Result, clock: nat -> real, k: nat)
    requires k < |codes|
    ensures Requests(codes[..k + 1], fetch, clock) ==
      var before := Requests(codes[..k], fetch, clock);
      if Harvest(codes[..k], fetch).1 then before
      else before + CodeRequests(codes[k], fetch, clock, |before|, TryFrom(codes[k], fetch, 0).tries)
  {
    assert codes[..k + 1][..k] == codes[..k];
  }

  /** Call number `k` of `run` is made at `clock(k)`: the clock counts the
      calls across the codes. */
  lemma {:induction false} RequestTimes(codes: seq<string>, fetch: (string, nat) -> Result, clock: nat -> real)
    ensures forall k :: 0 <= k < |Requests(codes, fetch, clock)| ==> Requests(codes, fetch, clock)[k].time == clock(k)
  {
    if |codes| > 0 {
      RequestTimes(codes[..|codes| - 1], fetch, clock);
    }
  }

  /** The lines written for each code, in order. */
  function CodeLines(codes: seq<string>, fetch: (string, nat) -> Result): (r: seq<string>)
    ensures |r| == |codes|
  {
    if |codes| == 0 then []
    else CodeLines(codes[..|codes| - 1], fetch) + [TryFrom(codes[|codes| - 1], fetch, 0).line]
  }

  function ConcatLeft(ls: seq<string>): string {
    if |ls| == 0 then "" else ConcatLeft(ls[..|ls| - 1]) + ls[|ls| - 1]
  }

  /** When no exception escapes, the output is the lines of the codes in
      the generator's order, each either nothing or `code|url` and a
      newline. */
  lemma {:induction false} HarvestWhole(codes: seq<string>, fetch: (string, nat) -> Result)
    requires forall k, i :: 0 <= k < |codes| && 0 <= i < MaxTries ==> !fetch(codes[k], i).Crash?
    ensures !Harvest(codes, fetch).1
    ensures Harvest(codes, fetch).0 == ConcatLeft(CodeLines(codes, fetch))
  {
    if |codes| > 0 {
      var init := codes[..|codes| - 1];
      var last := codes[|codes| - 1];
      HarvestWhole(init, fetch);
      TryFromEnds(last, fetch, 0);
      var ls := CodeLines(codes, fetch);
      assert ls[..|ls| - 1] == CodeLines(init, fetch);
    }
  }

  class Reaper {
    /** The service's `rate_limit`. */
    const rateLimit: Option<(int, int)>
    /** `_rate_limit_bucket` and `_rate_limit_next`. */
    var bucket: int
    var next: real

    /** `__init__`: an empty bucket that may be refilled at once. */
    constructor(rateLimit: Option<(int, int)>, now: real)
      ensures this.rateLimit == rateLimit && bucket == 0 && next == now
    {
      this.rateLimit := rateLimit;
      bucket := 0;
      next := now;
    }

    /** `_rate_limit` at time `now`; `resume` is the time after the sleep. */
    method RateLimit(now: real) returns (resume: real)
      modifies this
      ensures (Bucket(bucket, next), resume) == Tick(old(Bucket(bucket, next)), now, Settings(rateLimit))
    {
      if bucket > 0 {
        bucket := bucket - 1;
        return now;
      }
      resume := if next > now then next else now;
      var settings := Settings(rateLimit);
      bucket := settings.0 - 1;
      next := resume + settings.1 as real;
    }

    /** The tries for one code; `clock(k)` is the time of the `k`-th call of
        `_rate_limit`, of which `calls` were made before. */
    method FetchCode(code: string, fetch: (string, nat) -> Result, clock: nat -> real, calls: nat)
      returns (run: CodeRun, calls': nat)
      modifies this
      ensures run == TryFrom(code, fetch, 0)
      ensures calls' == calls + run.tries
      ensures Bucket(bucket, next) ==
        Replay(old(Bucket(bucket, next)), CodeRequests(code, fetch, clock, calls, run.tries), Settings(rateLimit))
    {
      ghost var start := Bucket(bucket, next);
      ghost var s := Settings(rateLimit);
      calls' := calls;
      var i := 0;
      while i < MaxTries
        invariant 0 <= i <= MaxTries && calls' == calls + i
        invariant i < MaxTries ==> TryFrom(code, fetch, 0) == TryFrom(code, fetch, i)
        invariant i == MaxTries ==> TryFrom(code, fetch, 0) == CodeRun("", false, MaxTries)
        invariant Bucket(bucket, next) == Replay(start, CodeRequests(code, fetch, clock, calls, i), s)
      {
        ghost var before := Bucket(bucket, next);
        var _ := RateLimit(clock(calls + i));
        ghost var ticked := Bucket(bucket, next);
        CodeRequestsStep(start, code, fetch, clock, calls, i, s, before, ticked);
        calls' := calls' + 1;
        match fetch(code, i) {
          case Crash =>
            return CodeRun("", true, i + 1), calls';
          case Raised(c) =>
            if IsInstance(c, NoRedirectException) {
              return CodeRun("", false, i + 1), calls';
            }
            if c == BlockedException {
              bucket := 0;
            }
          case Url(u) =>
            if '\n' in u || '\r' in u {
              return CodeRun("", false, i + 1), calls';
            }
            return CodeRun(code + "|" + u + "\n", false, i + 1), calls';
        }
        i := i + 1;
      }
      return CodeRun("", false, MaxTries), calls';
    }

    /** `run` over the codes of the generator: the text written to the
        output file, whether an exception escaped, and the number of
        `_rate_limit` calls made. */
    method Run(codes: seq<string>, fetch: (string, nat) -> Result, clock: nat -> real)
      returns (out: string, crashed: bool, calls: nat)
      modifies this
      ensures (out, crashed) == Harvest(codes, fetch)
      ensures calls == |Requests(codes, fetch, clock)|
      ensures Bucket(bucket, next) == Replay(old(Bucket(bucket, next)), Requests(codes, fetch, clock), Settings(rateLimit))
    {
      ghost var start := Bucket(bucket, next);
      ghost var s := Settings(rateLimit);
      out, crashed, calls := "", false, 0;
      var k := 0;
      while k < |codes|
        invariant 0 <= k <= |codes|
        invariant (out, false) == Harvest(codes[..k], fetch)
        invariant calls == |Requests(codes[..k], fetch, clock)|
        invariant Bucket(bucket, next) == Replay(start, Requests(codes[..k], fetch, clock), s)
      {
        HarvestSnoc(codes, fetch, k);
        RequestsSnoc(codes, fetch, clock, k);
        ghost var before := Requests(codes[..k], fetch, clock);
        var run;
        run, calls := FetchCode(codes[k], fetch, clock, calls);
        ReplayConcat(start, before, CodeRequests(codes[k], fetch, clock, |before|, run.tries), s);
        out := out + run.line;
        if run.crash {
          HarvestStops(codes, fetch, clock, k + 1);
          return out, true, calls;
        }
        k := k + 1;
      }
      assert codes[..k] == codes;
    }
  }

  // ---------------------------------------------------------------------------
  // ServiceTester

  /** `line.rstrip("\r\n")`: every trailing CR and LF goes. */
  function RStripCrlf(s: string): (r: string)
    ensures |r| <= |s| && r == s[..|r|]
    ensures r == "" || (r[|r| - 1] != '\r' && r[|r| - 1] != '\n')
    ensures forall i :: |r| <= i < |s| ==> s[i] == '\r' || s[i] == '\n'
  {
    if |s| > 0 && (s[|s| - 1] == '\r' || s[|s| - 1] == '\n') then RStripCrlf(s[..|s| - 1]) else s
  }

  /** The expected outcome of a fixture: a URL or an exception class. */
  datatype Expected = ExpectUrl(url: string) | ExpectRaise(c: ExceptionClass)

  /** A fixture line: skipped, a test case, or a line without "|", on which
      `line[1]` raises IndexError. */
  datatype Fixture = Skip | Case(code: string, expected: Expected) | IndexError

  function ParseFixture(raw: string): (f: Fixture)
    ensures f == Skip <==> RStripCrlf(raw) == "" || RStripCrlf(raw)[0] == '#'
    ensures f == IndexError <==> f != Skip && '|' !in RStripCrlf(raw)
    ensures f.Case? ==> RStripCrlf(raw) == f.code + "|" + ExpectedText(f.expected) && '|' !in f.code
  {
    var line := RStripCrlf(raw);
    if line == "" || line[0] == '#' then Skip
    else
      var (code, rest) := SplitRecord(line);
      if rest.None? then IndexError
      else
        var expected :=
          if rest.value == "notfound" then ExpectRaise(NoRedirectException)
          else if rest.value == "blocked" then ExpectRaise(CodeBlockedException)
          else ExpectUrl(rest.value);
        Case(code, expected)
  }

  /** The fixture text that stands for an expected outcome. */
  function ExpectedText(e: Expected): string {
    match e
    case ExpectUrl(u) => u
    case ExpectRaise(c) => if c == NoRedirectException then "notfound" else "blocked"
  }

  /** `success`: the URL equals the expected string, or the exception is an
      instance of the expected class. */
  function Passes(e: Expected, r: Result): (ok: bool)
    requires !r.Crash?
    ensures ok ==> (r.Url? <==> e.ExpectUrl?)
    ensures r.Url? ==> (ok <==> e.ExpectUrl? && r.url == e.url)
    ensures r.Raised? ==> (ok <==> e.ExpectRaise? && IsInstance(r.c, e.c))
  {
    match r
    case Url(u) => e.ExpectUrl? && u == e.url
    case Raised(c) => e.ExpectRaise? && IsInstance(c, e.c)
  }

  /** A "notfound" fixture accepts a CodeBlockedException too, but a
      "blocked" one does not accept a plain NoRedirectException; a URL never
      matches an expected exception, even one whose text is "notfound". */
  lemma FixtureMatching()
    ensures Passes(ExpectRaise(NoRedirectException), Raised(CodeBlockedException))
    ensures !Passes(ExpectRaise(CodeBlockedException), Raised(NoRedirectException))
    ensures !Passes(ExpectRaise(NoRedirectException), Url("notfound"))
    ensures ParseFixture("a|notfound\r\n") == Case("a", ExpectRaise(NoRedirectException))
  {
    InstanceOf(CodeBlockedException, NoRedirectException);
    InstanceOf(NoRedirectException, CodeBlockedException);
    NotFoundLine("a|notfound\r\n", "a");
  }

  lemma NotFoundLine(raw: string, code: string)
    requires raw == code + "|" + "notfound" + "\r\n"
    requires code != "" && code[0] != '#' && '|' !in code
    ensures ParseFixture(raw) == Case(code, ExpectRaise(NoRedirectException))
  {
    var line := code + "|" + "notfound";
    assert line[|line| - 1] == 'd';
    assert raw[..|raw| - 1] == line + "\r";
    assert (line + "\r")[..|line|] == line;
    assert RStripCrlf(line) == line;
    assert RStripCrlf(raw) == line;
    SplitRecordOf(code, "notfound");
  }

  /** The tester over the fixture lines: the codes whose fixture failed, in
      order (the warnings it logs), and whether it stopped on an exception:
      an IndexError or one `fetch` raised that is not a ServiceException. */
  function TestAll(lines: seq<string>, fetch: string -> Result): (r: (seq<string>, bool))
    ensures |r.0| <= |lines|
  {
    if |lines| == 0 then ([], false)
    else
      match ParseFixture(lines[0])
      case Skip => TestAll(lines[1..], fetch)
      case IndexError => ([], true)
      case Case(code, e) =>
        var result := fetch(code);
        if result.Crash? then ([], true)
        else
          var rest := TestAll(lines[1..], fetch);
          ((if Passes(e, result) then [] else [code]) + rest.0, rest.1)
  }

  /** When every fixture line is well formed and the service raises only
      service exceptions, the tester reads every line and reports exactly
      the cases that do not pass. */
  lemma {:induction false} TestAllReports(lines: seq<string>, fetch: string -> Result)
    requires forall i :: 0 <= i < |lines| ==> ParseFixture(lines[i]) != IndexError
    requires forall c :: !fetch(c).Crash?
    ensures !TestAll(lines, fetch).1
    ensures TestAll(lines, fetch).0 == Failures(lines, fetch)
  {
    if |lines| > 0 {
      TestAllReports(lines[1..], fetch);
    }
  }

  /** The codes of the cases that fail, in order. */
  function Failures(lines: seq<string>, fetch: string -> Result): seq<string>
    requires forall c :: !fetch(c).Crash?
  {
    if |lines| == 0 then []
    else
      var f := ParseFixture(lines[0]);
      (if f.Case? && !Passes(f.expected, fetch(f.code)) then [f.code] else []) + Failures(lines[1..], fetch)
  }
}
