/** lib/tinyback/reaper.rb: the threaded harvester, run one thread after the
    other.  The code cursor, the per-code retry loop, the statistics and the
    writer's stop counting are modelled; threads, the mutex, the logger and
    the gzip file are not.  What the service answers to the t-th attempt at a
    code is the oracle `fetch(code, t)`. */
module Reaper {
  import opened Wrappers
  import Services

  // ---------------------------------------------------------------------------
  // Stats

  /** `Reaper::Stats`: requests made, and how many of them found nothing,
      failed, or were blocked by the service. */
  datatype Stats = Stats(fetched: int, notFound: int, error: int, blocked: int)

  /** `Stats.new` with no arguments. */
  const Zero := Stats(0, 0, 0, 0)

  /** `Stats#successful`: requests that returned a long URL. */
  function Successful(s: Stats): (r: int)
    ensures r + s.notFound + s.error + s.blocked == s.fetched
  {
    s.fetched - s.notFound - s.error - s.blocked
  }

  /** `Stats#-`: the change between two snapshots, field by field. */
  function Minus(a: Stats, b: Stats): (r: Stats)
    ensures r.fetched == a.fetched - b.fetched && r.notFound == a.notFound - b.notFound
    ensures r.error == a.error - b.error && r.blocked == a.blocked - b.blocked
  {
    Stats(a.fetched - b.fetched, a.notFound - b.notFound, a.error - b.error, a.blocked - b.blocked)
  }

  /** The successful requests of a window are the difference of the
      successful requests at its ends, and a snapshot minus itself is zero. */
  lemma MinusSuccessful(a: Stats, b: Stats)
    ensures Successful(Minus(a, b)) == Successful(a) - Successful(b)
    ensures Minus(a, a) == Zero
  {
  }

  /** `fill_rate`, `error_rate` and `block_rate`, over exact reals. */
  function FillRate(s: Stats): real {
    if s.fetched == 0 then 0.0 else 1.0 - s.notFound as real / s.fetched as real
  }

  function ErrorRate(s: Stats): real {
    if s.fetched == 0 then 0.0 else s.error as real / s.fetched as real
  }

  function BlockRate(s: Stats): real {
    if s.fetched == 0 then 0.0 else s.blocked as real / s.fetched as real
  }

  /** The monitor's `diff.block_rate >= 0.1`. */
  predicate TooManyBlocks(diff: Stats) {
    BlockRate(diff) >= 0.1
  }

  /** A window without requests never aborts; otherwise the monitor aborts
      exactly when at least one request in ten was blocked. */
  lemma BlockThreshold(s: Stats)
    ensures s.fetched == 0 ==> !TooManyBlocks(s)
    ensures s.fetched > 0 ==> (TooManyBlocks(s) <==> 10 * s.blocked >= s.fetched)
  {
    if s.fetched > 0 {
      var f := s.fetched as real;
      var q := s.blocked as real / f;
      assert q * f == s.blocked as real;
      if q >= 0.1 {
        assert q * f >= 0.1 * f;
      } else {
        assert q * f < 0.1 * f;
      }
    }
  }

  /** With counts that fit inside the requests made, every rate is a
      fraction between 0 and 1. */
  lemma RatesAreFractions(s: Stats)
    requires 0 <= s.notFound <= s.fetched && 0 <= s.error <= s.fetched && 0 <= s.blocked <= s.fetched
    ensures 0.0 <= FillRate(s) <= 1.0 && 0.0 <= ErrorRate(s) <= 1.0 && 0.0 <= BlockRate(s) <= 1.0
  {
    if s.fetched > 0 {
      var f := s.fetched as real;
      Fraction(s.notFound as real, f);
      Fraction(s.error as real, f);
      Fraction(s.blocked as real, f);
    }
  }

  lemma Fraction(x: real, f: real)
    requires 0.0 <= x <= f && f > 0.0
    ensures 0.0 <= x / f <= 1.0
  {
    var q := x / f;
    assert q * f == x;
  }

  /** `monitor_thread`, over the snapshots it takes: the window at which it
      exits, the first whose difference to the snapshot before has too many
      blocks; None while no window does. */
  method Monitor(snapshots: seq<Stats>) returns (abortAt: Option<nat>)
    ensures abortAt.Some? ==>
      (0 < abortAt.value < |snapshots| && TooManyBlocks(Minus(snapshots[abortAt.value], snapshots[abortAt.value - 1])))
    ensures forall k :: 0 < k < |snapshots| && (abortAt.None? || k < abortAt.value) ==>
      !TooManyBlocks(Minus(snapshots[k], snapshots[k - 1]))
  {
    if |snapshots| == 0 {
      return None;
    }
    var oldStats := snapshots[0];
    var k := 1;
    while k < |snapshots|
      invariant 1 <= k <= |snapshots| && oldStats == snapshots[k - 1]
      invariant forall j :: 0 < j < k ==> !TooManyBlocks(Minus(snapshots[j], snapshots[j - 1]))
    {
      var stats := snapshots[k];
      var diff := Minus(stats, oldStats);
      oldStats := stats;
      if TooManyBlocks(diff) {
        return Some(k);
      }
      k := k + 1;
    }
    return None;
  }

  // ---------------------------------------------------------------------------
  // One attempt and the retry loop

  const MaxTries := 3

  /** What one attempt comes to: the service's answer, or the ten-second
      timeout (`FetchTimeout`). */
  datatype Attempt = Answer(r: Services.Response) | TimedOut

  /** The branches of the `case child[:error]` statement, in their order. */
  datatype Outcome =
    | Success(url: string)  // no error: the URL is queued
    | NotFound              // NoRedirectError
    | CodeBlocked           // CodeBlockedError
    | ServiceBlocked        // ServiceBlockedError
    | Recycle               // FetchError, a socket error or the timeout
    | Fatal                 // anything else: the reaper exits

  /** `case` tests `Class === error` branch by branch, so the first matching
      branch wins. */
  function Classify(a: Attempt): (o: Outcome)
    ensures a.Answer? && a.r.Found? <==> o.Success?
    ensures o.Success? ==> o.url == a.r.url
  {
    match a
    case TimedOut => Recycle
    case Answer(Found(url)) => Success(url)
    case Answer(Raise(e)) =>
      match e
      case Error(c) =>
        if Services.KindOf(c, Services.NoRedirectError) then NotFound
        else if Services.KindOf(c, Services.CodeBlockedError) then CodeBlocked
        else if Services.KindOf(c, Services.ServiceBlockedError) then ServiceBlocked
        else if Services.KindOf(c, Services.FetchError) then Recycle
        else Fatal
      case ConnectionReset => Recycle
      case ConnectionRefused => Recycle
      case ConnectionTimedOut => Recycle
      case _ => Fatal
  }

  /** A ServiceBlockedError is a FetchError, yet it is counted as blocked:
      its branch comes first.  InvalidCodeError and the bare ServiceError
      reach no branch and are fatal. */
  lemma ServiceBlockedFirst()
    ensures Services.KindOf(Services.ServiceBlockedError, Services.FetchError)
    ensures Classify(Answer(Services.Raise(Services.Error(Services.ServiceBlockedError)))) == ServiceBlocked
    ensures Classify(Answer(Services.Raise(Services.Error(Services.FetchError)))) == Recycle
    ensures Classify(Answer(Services.Raise(Services.Error(Services.InvalidCodeError)))) == Fatal
    ensures Classify(Answer(Services.Raise(Services.Error(Services.ServiceError)))) == Fatal
  {
  }

  /** Where the retry loop of one code ends: the statistics then, the URL
      queued if any, whether the reaper exits, and the attempts made. */
  datatype CodeResult = CodeResult(stats: Stats, url: Option<string>, fatal: bool, tries: nat)

  /** The `begin ... end while retrying` loop from attempt `tries + 1`, with
      the statistics `s` before it.  The request of the first attempt was
      counted when the code was handed out; each retry counts the next one. */
  function RetryFrom(code: string, fetch: (string, nat) -> Attempt, tries: nat, s: Stats): CodeResult
    requires tries < MaxTries
    decreases MaxTries - tries
  {
    var t := tries + 1;
    var retrying := t < MaxTries;
    match Classify(fetch(code, t))
    case Success(url) => CodeResult(s, Some(url), false, t)
    case NotFound => CodeResult(s.(notFound := s.notFound + 1), None, false, t)
    case CodeBlocked => CodeResult(s.(error := s.error + 1), None, false, t)
    case ServiceBlocked =>
      if retrying then RetryFrom(code, fetch, t, s.(blocked := s.blocked + 1, fetched := s.fetched + 1))
      else CodeResult(s.(blocked := s.blocked + 1), None, false, t)
    case Recycle =>
      if retrying then RetryFrom(code, fetch, t, s.(error := s.error + 1, fetched := s.fetched + 1))
      else CodeResult(s.(error := s.error + 1), None, false, t)
    case Fatal => CodeResult(s, None, true, t)
  }

  /** The accounting of the retry loop: it makes between one and MaxTries
      attempts, counts exactly one request per attempt after the first,
      leaves the counters no smaller, and every attempt that did not end in
      a URL is counted as not found, error or blocked, so `successful` goes
      down by one exactly when no URL is queued. */
  lemma {:induction false} RetryAccounting(code: string, fetch: (string, nat) -> Attempt, tries: nat, s: Stats)
    requires tries < MaxTries
    ensures Accounted(tries, s, RetryFrom(code, fetch, tries, s))
    decreases MaxTries - tries
  {
    var t := tries + 1;
    var o := Classify(fetch(code, t));
    var r := RetryFrom(code, fetch, tries, s);
    if t < MaxTries && o.ServiceBlocked? {
      var s' := s.(blocked := s.blocked + 1, fetched := s.fetched + 1);
      assert r == RetryFrom(code, fetch, t, s');
      RetryAccounting(code, fetch, t, s');
    } else if t < MaxTries && o.Recycle? {
      var s' := s.(error := s.error + 1, fetched := s.fetched + 1);
      assert r == RetryFrom(code, fetch, t, s');
      RetryAccounting(code, fetch, t, s');
    } else {
      RetryLast(code, fetch, tries, s);
    }
  }

  /** The attempt after which the loop does not go round again. */
  lemma RetryLast(code: string, fetch: (string, nat) -> Attempt, tries: nat, s: Stats)
    requires tries < MaxTries
    requires var o := Classify(fetch(code, tries + 1));
      !(tries + 1 < MaxTries && (o.ServiceBlocked? || o.Recycle?))
    ensures Accounted(tries, s, RetryFrom(code, fetch, tries, s))
  {
    var t := tries + 1;
    var r := RetryFrom(code, fetch, tries, s);
    match Classify(fetch(code, t))
    case Success(url) =>
      assert r == CodeResult(s, Some(url), false, t);
    case NotFound =>
      assert r == CodeResult(s.(notFound := s.notFound + 1), None, false, t);
    case CodeBlocked =>
      assert r == CodeResult(s.(error := s.error + 1), None, false, t);
    case ServiceBlocked =>
      assert r == CodeResult(s.(blocked := s.blocked + 1), None, false, t);
    case Recycle =>
      assert r == CodeResult(s.(error := s.error + 1), None, false, t);
    case Fatal =>
      assert r == CodeResult(s, None, true, t);
  }

  /** What RetryAccounting states of the loop from attempt `tries + 1` with
      the statistics `s`, ending in `r`. */
  predicate Accounted(tries: nat, s: Stats, r: CodeResult) {
    && tries < r.tries <= MaxTries
    && r.stats.fetched == s.fetched + (r.tries - tries - 1)
    && r.stats.notFound >= s.notFound && r.stats.error >= s.error && r.stats.blocked >= s.blocked
    && (!r.fatal ==> Successful(r.stats) == Successful(s) - (if r.url.Some? then 0 else 1))
    && (r.fatal ==> r.url.None? && Successful(r.stats) == Successful(s))
  }

  /** A URL is queued only when the last attempt found it, and retrying
      stops early only on an answer that is not to be retried. */
  lemma {:induction false} RetryStops(code: string, fetch: (string, nat) -> Attempt, tries: nat, s: Stats)
    requires tries < MaxTries
    ensures StoppedOn(code, fetch, RetryFrom(code, fetch, tries, s))
    decreases MaxTries - tries
  {
    var t := tries + 1;
    var o := Classify(fetch(code, t));
    var r := RetryFrom(code, fetch, tries, s);
    if t < MaxTries && o.ServiceBlocked? {
      var s' := s.(blocked := s.blocked + 1, fetched := s.fetched + 1);
      assert r == RetryFrom(code, fetch, t, s');
      RetryStops(code, fetch, t, s');
    } else if t < MaxTries && o.Recycle? {
      var s' := s.(error := s.error + 1, fetched := s.fetched + 1);
      assert r == RetryFrom(code, fetch, t, s');
      RetryStops(code, fetch, t, s');
    } else {
      StopsLast(code, fetch, tries, s);
    }
  }

  /** What RetryStops states of the loop ending in `r`. */
  predicate StoppedOn(code: string, fetch: (string, nat) -> Attempt, r: CodeResult) {
    var last := Classify(fetch(code, r.tries));
    && (r.url.Some? ==> last == Success(r.url.value))
    && (r.fatal ==> last == Fatal)
    && (r.tries < MaxTries ==> !last.ServiceBlocked? && !last.Recycle?)
  }

  lemma StopsLast(code: string, fetch: (string, nat) -> Attempt, tries: nat, s: Stats)
    requires tries < MaxTries
    requires var o := Classify(fetch(code, tries + 1));
      !(tries + 1 < MaxTries && (o.ServiceBlocked? || o.Recycle?))
    ensures StoppedOn(code, fetch, RetryFrom(code, fetch, tries, s))
  {
    var t := tries + 1;
    var r := RetryFrom(code, fetch, tries, s);
    assert r.tries == t;
  }

  // ---------------------------------------------------------------------------
  // The write queue and the writer

  /** An entry of `@write_queue`: a found code with its URL, or `:stop`. */
  datatype Item = Record(code: string, url: string) | Stop

  /** The line written for a record. */
  function FormatLine(code: string, url: string): (line: string)
    ensures |line| == |code| + |url| + 2 && line[|line| - 1] == '\n'
  {
    code + "|" + url + "\n"
  }

  /** A written line splits back into its code and URL when the code has no
      "|" and neither holds a newline. */
  lemma FormatSplits(code: string, url: string)
    requires '|' !in code && '\n' !in code && '\n' !in url
    ensures var line := FormatLine(code, url);
      && line[|code|] == '|' && '|' !in line[..|code|]
      && line[..|code|] == code && line[|code| + 1..|line| - 1] == url
      && '\n' !in line[..|line| - 1]
  {
    var line := FormatLine(code, url);
    assert line[..|code|] == code;
    assert line[|code| + 1..|line| - 1] == url;
    assert line[..|line| - 1] == code + "|" + url;
  }

  /** The lines of the records of a queue, in queue order. */
  function LinesOf(q: seq<Item>): (r: seq<string>)
    ensures |r| <= |q|
    decreases |q|
  {
    if |q| == 0 then []
    else
      match q[0]
      case Record(code, url) => [FormatLine(code, url)] + LinesOf(q[1..])
      case Stop => LinesOf(q[1..])
  }

  function CountStops(q: seq<Item>): (n: nat)
    ensures n <= |q|
    decreases |q|
  {
    if |q| == 0 then 0 else (if q[0].Stop? then 1 else 0) + CountStops(q[1..])
  }

  /** Appending to the queue adds the item's line or its stop at the end. */
  lemma {:induction false} AppendItem(q: seq<Item>, x: Item)
    ensures LinesOf(q + [x]) == LinesOf(q) + (if x.Record? then [FormatLine(x.code, x.url)] else [])
    ensures CountStops(q + [x]) == CountStops(q) + (if x.Stop? then 1 else 0)
    decreases |q|
  {
    if |q| == 0 {
      assert [x][1..] == [];
    } else {
      assert (q + [x])[1..] == q[1..] + [x];
      AppendItem(q[1..], x);
    }
  }

  predicate NoNewline(q: seq<Item>) {
    forall i :: 0 <= i < |q| && q[i].Record? ==> '\n' !in q[i].url
  }

  datatype WriterEnd =
    | Finished   // every fetch thread's stop arrived
    | Exited     // a URL held a newline: the reaper exits
    | Starved    // the queue ran dry first: `pop` blocks for ever

  /** `write_thread` over the queue as it will be popped, waiting for
      `stop` more stops. */
  function Drain(q: seq<Item>, stop: nat): (r: (seq<string>, WriterEnd))
    ensures r.1 == Finished ==> CountStops(q) >= stop
    ensures r.1 == Starved ==> CountStops(q) < stop
    ensures r.1 == Exited ==> !NoNewline(q)
    decreases |q|
  {
    if stop == 0 then ([], Finished)
    else if |q| == 0 then ([], Starved)
    else
      match q[0]
      case Stop => Drain(q[1..], stop - 1)
      case Record(code, url) =>
        if '\n' in url then ([], Exited)
        else
          var t := Drain(q[1..], stop);
          assert !NoNewline(q[1..]) ==> !NoNewline(q) by {
            if !NoNewline(q[1..]) {
              var i :| 0 <= i < |q[1..]| && q[1..][i].Record? && '\n' in q[1..][i].url;
              assert q[i + 1] == q[1..][i];
            }
          }
          ([FormatLine(code, url)] + t.0, t.1)
  }

  /** A queue without newlines that holds a stop from each of the `stop`
      threads, the last stop behind everything else, is written out whole,
      in order. */
  lemma {:induction false} DrainWritesAll(q: seq<Item>, stop: nat)
    requires NoNewline(q) && CountStops(q) == stop
    requires q != [] ==> q[|q| - 1] == Stop
    ensures Drain(q, stop) == (LinesOf(q), Finished)
    decreases |q|
  {
    if q != [] {
      var rest := q[1..];
      assert NoNewline(rest) by {
        forall i | 0 <= i < |rest| && rest[i].Record? ensures '\n' !in rest[i].url {
          assert rest[i] == q[i + 1];
        }
      }
      if rest != [] {
        assert rest[|rest| - 1] == q[|q| - 1];
      } else {
        assert q == [Stop];
      }
      if q[0].Stop? {
        DrainWritesAll(rest, stop - 1);
      } else {
        assert '\n' !in q[0].url;
        DrainWritesAll(rest, stop);
      }
    }
  }

  /** `write_thread`: pop until `num_fetch_threads` stops have arrived,
      exiting on a URL with a newline. */
  method WriteThread(queue: seq<Item>, numFetchThreads: nat) returns (lines: seq<string>, end: WriterEnd)
    ensures (lines, end) == Drain(queue, numFetchThreads)
  {
    var stop := numFetchThreads;
    var q := queue;
    lines := [];
    assert lines + Drain(q, stop).0 == Drain(q, stop).0;
    while stop > 0
      invariant Drain(queue, numFetchThreads) == (lines + Drain(q, stop).0, Drain(q, stop).1)
      decreases |q|
    {
      if |q| == 0 {
        assert lines + [] == lines;
        return lines, Starved;
      }
      var item := q[0];
      q := q[1..];
      if item.Stop? {
        stop := stop - 1;
        continue;
      }
      if '\n' in item.url {
        assert lines + [] == lines;
        return lines, Exited;
      }
      WriteStep(lines, item, q, stop);
      lines := lines + [FormatLine(item.code, item.url)];
    }
    assert lines + [] == lines;
    end := Finished;
  }

  lemma WriteStep(lines: seq<string>, item: Item, q: seq<Item>, stop: nat)
    requires item.Record? && '\n' !in item.url && stop > 0
    ensures Drain([item] + q, stop) == ([FormatLine(item.code, item.url)] + Drain(q, stop).0, Drain(q, stop).1)
    ensures lines + Drain([item] + q, stop).0 == (lines + [FormatLine(item.code, item.url)]) + Drain(q, stop).0
  {
    assert ([item] + q)[1..] == q;
  }

  // ---------------------------------------------------------------------------
  // The fetch threads

  /** What taking a code from the cursor gives. */
  datatype Handout =
    | Code(code: string)  // the current code, the cursor moved past it
    | Done                // the cursor reached the stop code
    | Crash               // `advance` raised: the thread dies

  /** How a fetch thread ends. */
  datatype ThreadEnd =
    | Ended      // the cursor reached the stop code; `:stop` was queued
    | Crashed    // `advance` raised; no `:stop` is queued
    | Killed     // a fatal error: the reaper exits
    | Cut        // the model's bound on the codes taken was reached

  /** Every URL a service answers with is free of newlines. */
  ghost predicate Clean(fetch: (string, nat) -> Attempt) {
    forall code, t :: fetch(code, t).Answer? && fetch(code, t).r.Found? ==> '\n' !in fetch(code, t).r.url
  }

  /** The state the fetch threads share: the cursor, the statistics and the
      write queue. */
  class Harvester {
    const charset: string
    const stopCode: string
    var current: string
    var stats: Stats
    var queue: seq<Item>

    /** Every request counted so far ended in a not-found, an error or a
        block, or put exactly one line into the queue. */
    ghost predicate Valid()
      reads this
    {
      && |charset| > 0
      && Successful(stats) == |LinesOf(queue)|
      && 0 <= stats.notFound && 0 <= stats.error && 0 <= stats.blocked
    }

    constructor(charset: string, start: string, stop: string)
      requires |charset| > 0
      ensures Valid()
      ensures this.charset == charset && stopCode == stop && current == start
      ensures stats == Zero && queue == []
    {
      this.charset := charset;
      stopCode := stop;
      current := start;
      stats := Zero;
      queue := [];
    }

    /** The synchronized block of `fetch_thread`: refuse at the stop code,
        otherwise hand out the current code, advance the cursor and count a
        request. */
    method TakeCode() returns (h: Handout)
      requires Valid()
      modifies this
      ensures queue == old(queue)
      ensures old(current) == stopCode ==> h == Done && current == old(current) && stats == old(stats)
      ensures old(current) != stopCode && Services.Next(charset, old(current)).None? ==>
        h == Crash && current == old(current) && stats == old(stats)
      ensures old(current) != stopCode && Services.Next(charset, old(current)).Some? ==>
        && h == Code(old(current))
        && current == Services.Next(charset, old(current)).value
        && stats == old(stats).(fetched := old(stats).fetched + 1)
    {
      if current == stopCode {
        return Done;
      }
      var tmp := current;
      var next := Services.Advance(charset, current);
      if next.None? {
        return Crash;
      }
      current := next.value;
      stats := stats.(fetched := stats.fetched + 1);
      return Code(tmp);
    }

    /** The retry loop of `fetch_thread` for one code. */
    method FetchCode(code: string, fetch: (string, nat) -> Attempt) returns (fatal: bool)
      modifies this
      ensures var r := RetryFrom(code, fetch, 0, old(stats));
        && stats == r.stats && fatal == r.fatal && current == old(current)
        && queue == old(queue) + Queued(code, r)
    {
      ghost var r := RetryFrom(code, fetch, 0, stats);
      var s := stats;
      var q := queue;
      var tries := 0;
      var retrying := true;
      while retrying
        invariant RetryLoop(code, fetch, r, tries, retrying, s, q, old(queue))
        invariant current == old(current) && queue == old(queue)
        decreases MaxTries - tries
      {
        ghost var s0, t0 := s, tries;
        tries := tries + 1;
        retrying := tries < MaxTries;
        var o := Classify(fetch(code, tries));
        match o {
          case Success(url) =>
            RetryEnds(code, fetch, t0, s0);
            q := q + [Record(code, url)];
            retrying := false;
          case NotFound =>
            RetryEnds(code, fetch, t0, s0);
            s := s.(notFound := s.notFound + 1);
            retrying := false;
          case CodeBlocked =>
            RetryEnds(code, fetch, t0, s0);
            s := s.(error := s.error + 1);
            retrying := false;
          case ServiceBlocked =>
            s := s.(blocked := s.blocked + 1);
            if retrying {
              s := s.(fetched := s.fetched + 1);
              RetryAgain(code, fetch, t0, s0, s);
            } else {
              RetryEnds(code, fetch, t0, s0);
            }
          case Recycle =>
            s := s.(error := s.error + 1);
            if retrying {
              s := s.(fetched := s.fetched + 1);
              RetryAgain(code, fetch, t0, s0, s);
            } else {
              RetryEnds(code, fetch, t0, s0);
            }
          case Fatal =>
            RetryEnds(code, fetch, t0, s0);
            stats := s;
            return true;
        }
      }
      stats, queue := s, q;
      fatal := false;
    }

    /** `fetch_thread`, taking at most `bound` codes. */
    method FetchThread(fetch: (string, nat) -> Attempt, bound: nat) returns (end: ThreadEnd)
      requires Valid()
      modifies this
      ensures end != Killed ==> Valid()
      ensures ThreadQueued(old(queue), queue, stopCode, Clean(fetch), end == Ended)
      ensures end == Ended ==> current == stopCode
      ensures old(stats).fetched <= stats.fetched
    {
      var left := bound;
      while true
        invariant Valid() && ThreadQueued(old(queue), queue, stopCode, Clean(fetch), false)
        invariant old(stats).fetched <= stats.fetched
        decreases left
      {
        if left == 0 {
          return Cut;
        }
        left := left - 1;
        var h := TakeCode();
        if h.Done? {
          StopQueued(old(queue), queue, stopCode, Clean(fetch));
          queue := queue + [Stop];
          return Ended;
        }
        if h.Crash? {
          return Crashed;
        }
        ghost var s := stats;
        ghost var q := queue;
        var fatal := FetchCode(h.code, fetch);
        if fatal {
          RetryAccounting(h.code, fetch, 0, s);
          assert queue == q;
          return Killed;
        }
        AfterCode(h.code, fetch, s, old(queue), q, queue, stopCode);
      }
    }

    /** The `num_fetch_threads` fetch threads, one after the other over the
        one cursor, each taking at most `bound` codes; how the first that did
        not end ended. */
    method FetchThreads(fetch: (string, nat) -> Attempt, numFetchThreads: nat, bound: nat)
      returns (failed: Option<ThreadEnd>)
      requires Valid() && stats.fetched >= 0 && queue == []
      modifies this
      ensures failed.Some? ==> failed.value != Ended
      ensures failed.None? ==> Valid() && stats.fetched >= 0 && RunQueue(queue, numFetchThreads, Clean(fetch))
    {
      var i := 0;
      while i < numFetchThreads
        invariant 0 <= i <= numFetchThreads
        invariant Valid() && stats.fetched >= 0
        invariant RunQueue(queue, i, Clean(fetch))
      {
        ghost var q := queue;
        var e := FetchThread(fetch, bound);
        if e != Ended {
          return Some(e);
        }
        NextThread(q, queue, i, stopCode, Clean(fetch));
        i := i + 1;
      }
      return None;
    }

    /** `run` done sequentially: the `num_fetch_threads` fetch threads one
        after the other over the one cursor, each taking at most `bound`
        codes, then the writer over everything they queued.  `failed` is how
        the first thread that did not end ended; the writer then never
        runs. */
    method Run(fetch: (string, nat) -> Attempt, numFetchThreads: nat, bound: nat)
      returns (lines: seq<string>, failed: Option<ThreadEnd>, end: WriterEnd)
      requires Valid() && stats.fetched >= 0 && queue == []
      modifies this
      ensures failed.Some? ==> failed.value != Ended && lines == []
      ensures failed.None? && end == Finished ==> lines == LinesOf(queue) && Successful(stats) == |lines|
      ensures failed.None? && Clean(fetch) ==> end == Finished
      ensures failed.None? ==> stats.fetched >= 0 && CountStops(queue) == numFetchThreads
    {
      failed := FetchThreads(fetch, numFetchThreads, bound);
      if failed.Some? {
        return [], failed, Starved;
      }
      var q := queue;
      lines, end := WriteThread(q, numFetchThreads);
      WriterOutcome(q, numFetchThreads, Clean(fetch), stats, lines, end);
    }
  }

  /** What a fetch thread added to the queue `q0`: records of codes other than
      the stop code, with clean URLs when the service's are, and, when it
      `ended`, one stop at the very end. */
  ghost predicate ThreadQueued(q0: seq<Item>, q: seq<Item>, stopCode: string, clean: bool, ended: bool) {
    && |q0| <= |q| && q[..|q0|] == q0
    && CountStops(q) == CountStops(q0) + (if ended then 1 else 0)
    && (ended ==> q[|q| - 1] == Stop)
    && (forall i :: |q0| <= i < |q| && q[i].Record? ==> q[i].code != stopCode)
    && (clean && NoNewline(q0) ==> NoNewline(q))
  }

  lemma StopQueued(q0: seq<Item>, q: seq<Item>, stopCode: string, clean: bool)
    requires ThreadQueued(q0, q, stopCode, clean, false)
    ensures ThreadQueued(q0, q + [Stop], stopCode, clean, true)
    ensures LinesOf(q + [Stop]) == LinesOf(q)
  {
    AppendItem(q, Stop);
    var q' := q + [Stop];
    assert q'[..|q0|] == q[..|q0|];
    assert NoNewline(q) ==> NoNewline(q') by {
      if NoNewline(q) {
        forall i | 0 <= i < |q'| && q'[i].Record? ensures '\n' !in q'[i].url {
          assert q'[i] == q[i];
        }
      }
    }
  }

  /** What the retry loop puts into the queue. */
  function Queued(code: string, r: CodeResult): seq<Item> {
    if r.url.Some? then [Record(code, r.url.value)] else []
  }

  /** An attempt after which the loop ends, by its outcome. */
  lemma RetryEnds(code: string, fetch: (string, nat) -> Attempt, tries: nat, s: Stats)
    requires tries < MaxTries
    requires var o := Classify(fetch(code, tries + 1));
      !(tries + 1 < MaxTries && (o.ServiceBlocked? || o.Recycle?))
    ensures var o := Classify(fetch(code, tries + 1));
      RetryFrom(code, fetch, tries, s) == CodeResult(
        match o
        case NotFound => s.(notFound := s.notFound + 1)
        case CodeBlocked => s.(error := s.error + 1)
        case ServiceBlocked => s.(blocked := s.blocked + 1)
        case Recycle => s.(error := s.error + 1)
        case _ => s,
        if o.Success? then Some(o.url) else None,
        o.Fatal?,
        tries + 1)
  {
  }

  /** An attempt after which the loop goes round again, with the
      statistics `s'` it counted. */
  lemma RetryAgain(code: string, fetch: (string, nat) -> Attempt, tries: nat, s: Stats, s': Stats)
    requires tries + 1 < MaxTries
    requires var o := Classify(fetch(code, tries + 1));
      || (o.ServiceBlocked? && s' == s.(blocked := s.blocked + 1, fetched := s.fetched + 1))
      || (o.Recycle? && s' == s.(error := s.error + 1, fetched := s.fetched + 1))
    ensures RetryFrom(code, fetch, tries, s) == RetryFrom(code, fetch, tries + 1, s')
  {
  }

  /** The state of the retry loop of `FetchCode` before attempt `tries + 1`
      (while retrying) or after the last attempt. */
  ghost predicate RetryLoop(code: string, fetch: (string, nat) -> Attempt, r: CodeResult,
                            tries: nat, retrying: bool, s: Stats, q: seq<Item>, q0: seq<Item>)
  {
    && tries <= MaxTries
    && (retrying ==> tries < MaxTries && q == q0 && RetryFrom(code, fetch, tries, s) == r)
    && (!retrying ==> !r.fatal && s == r.stats && q == q0 + Queued(code, r))
  }

  /** One code's retry loop keeps the queue's accounting (the request the
      hand-out counted now has its line, or its failure counted) and what
      the thread has queued. */
  lemma AfterCode(code: string, fetch: (string, nat) -> Attempt, s: Stats,
                  q0: seq<Item>, q: seq<Item>, q': seq<Item>, stopCode: string)
    requires Successful(s) == |LinesOf(q)| + 1 && 0 <= s.notFound && 0 <= s.error && 0 <= s.blocked
    requires !RetryFrom(code, fetch, 0, s).fatal
    requires q' == q + Queued(code, RetryFrom(code, fetch, 0, s))
    requires ThreadQueued(q0, q, stopCode, Clean(fetch), false) && code != stopCode
    ensures var r := RetryFrom(code, fetch, 0, s);
      && Successful(r.stats) == |LinesOf(q')|
      && 0 <= r.stats.notFound && 0 <= r.stats.error && 0 <= r.stats.blocked
      && s.fetched <= r.stats.fetched
      && ThreadQueued(q0, q', stopCode, Clean(fetch), false)
  {
    var r := RetryFrom(code, fetch, 0, s);
    RetryAccounting(code, fetch, 0, s);
    RetryStops(code, fetch, 0, s);
    if r.url.Some? {
      var x := Record(code, r.url.value);
      AppendItem(q, x);
      assert q'[..|q0|] == q[..|q0|];
      assert forall i :: 0 <= i < |q| ==> q'[i] == q[i];
      assert Clean(fetch) ==> '\n' !in x.url by {
        if Clean(fetch) {
          assert fetch(code, r.tries).Answer? && fetch(code, r.tries).r.Found?;
        }
      }
    } else {
      assert q' == q;
    }
  }

  /** The queue after `n` fetch threads ended: `n` stops, the last one at
      the very end, and clean URLs when the service's are. */
  ghost predicate RunQueue(q: seq<Item>, n: nat, clean: bool) {
    && CountStops(q) == n
    && (q != [] ==> q[|q| - 1] == Stop)
    && (n == 0 ==> q == [])
    && (clean ==> NoNewline(q))
  }

  lemma NextThread(q: seq<Item>, q': seq<Item>, n: nat, stopCode: string, clean: bool)
    requires RunQueue(q, n, clean) && ThreadQueued(q, q', stopCode, clean, true)
    ensures RunQueue(q', n + 1, clean)
  {
    if n == 0 {
      assert NoNewline(q);
    }
  }

  /** The writer over the queue of threads that all ended: it finishes when
      no URL holds a newline, and when it finishes it has written one line
      per successful request. */
  lemma WriterOutcome(q: seq<Item>, n: nat, clean: bool, stats: Stats, lines: seq<string>, end: WriterEnd)
    requires RunQueue(q, n, clean) && Successful(stats) == |LinesOf(q)|
    requires (lines, end) == Drain(q, n)
    ensures end == Finished ==> lines == LinesOf(q) && Successful(stats) == |lines|
    ensures clean ==> end == Finished
  {
    if clean {
      DrainWritesAll(q, n);
    } else if Drain(q, n).1 == Finished {
      FinishedWritesAll(q, n);
    }
  }

  /** When the writer finished on a queue whose last stop is behind
      everything else, it wrote every line. */
  lemma {:induction false} FinishedWritesAll(q: seq<Item>, stop: nat)
    requires Drain(q, stop).1 == Finished && CountStops(q) == stop
    requires q != [] ==> q[|q| - 1] == Stop
    ensures Drain(q, stop).0 == LinesOf(q)
    decreases |q|
  {
    if q != [] {
      var rest := q[1..];
      if rest != [] {
        assert rest[|rest| - 1] == q[|q| - 1];
      } else {
        assert q == [Stop];
      }
      if q[0].Stop? {
        FinishedWritesAll(rest, stop - 1);
      } else {
        FinishedWritesAll(rest, stop);
      }
    }
  }
}
