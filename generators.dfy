/** tinyback/generators.py: the generators that produce the codes of a task.
    A Python generator is modelled by the codes it yields before it ends and
    by how it ends.  Generators that may run forever get a bound on the work
    done, and the stream then ends in `Cut`. */
module Generators {
  import opened Wrappers
  import Services

  type Byte = b: int | 0 <= b < 256

  /** `hashlib.md5().digest_size`. */
  const DigestSize := 16

  datatype Failure = ValueError | ZeroDivisionError | IndexError

  datatype End =
    | Exhausted          // the generator returned
    | Raised(f: Failure) // the generator raised
    | Cut                // the model's bound on the work was reached first

  datatype Stream = Stream(codes: seq<string>, end: End)

  /** The options dictionary handed to `factory`. */
  datatype Options = Options(
    charset: string, count: int, length: int, seed: seq<Byte>,
    start: string, stop: string, list: seq<string>)

  // ---------------------------------------------------------------------------
  // factory

  /** `factory`: None when the type is unknown (it raises ValueError at once);
      otherwise the stream of the chosen generator.  `bound` caps the hash
      rounds of a chain and the successor steps of a sequence. */
  function Factory(kind: string, o: Options, hash: seq<Byte> -> seq<Byte>, bound: nat): (r: Option<Stream>)
    ensures r.None? <==> kind != "chain" && kind != "sequence" && kind != "list"
    ensures kind == "list" ==> r == Some(Stream(o.list, Exhausted))
    ensures kind == "chain" ==> r == Some(Chain(hash, o.charset, o.length, o.count, o.seed, bound))
    ensures kind == "sequence" ==> r == Some(Sequence(o.charset, o.start, o.stop, bound))
  {
    if kind == "chain" then Some(Chain(hash, o.charset, o.length, o.count, o.seed, bound))
    else if kind == "sequence" then Some(Sequence(o.charset, o.start, o.stop, bound))
    else if kind == "list" then Some(Stream(o.list, Exhausted))
    else None
  }

  // ---------------------------------------------------------------------------
  // sequence_generator

  /** What `sequence_generator` yields after `code`, taking at most `steps`
      successor steps.  An empty charset raises IndexError (`charset[-1]` or
      `charset[0]`), a symbol outside it ValueError (`charset.index`). */
  function SequenceFrom(cs: string, code: string, stop: string, steps: nat): Stream
    decreases steps
  {
    if code == stop then Stream([], Exhausted)
    else if |cs| == 0 then Stream([], Raised(IndexError))
    else if steps == 0 then Stream([], Cut)
    else
      match Services.Next(cs, code)
      case None => Stream([], Raised(ValueError))
      case Some(c) =>
        var t := SequenceFrom(cs, c, stop, steps - 1);
        Stream([c] + t.codes, t.end)
  }

  /** `sequence_generator`: `start`, then what follows it. */
  function Sequence(cs: string, start: string, stop: string, steps: nat): Stream {
    var t := SequenceFrom(cs, start, stop, steps);
    Stream([start] + t.codes, t.end)
  }

  /** `sequence_generator` as a loop: yield, then advance until `stop`.  The
      inner for/else loop is the rule of `Base.advance` and is the loop of
      `Services.Advance`. */
  method SequenceGenerator(cs: string, start: string, stop: string, steps: nat)
    returns (codes: seq<string>, end: End)
    ensures Stream(codes, end) == Sequence(cs, start, stop, steps)
  {
    var code := start;
    codes := [start];
    var left := steps;
    while code != stop
      invariant Sequence(cs, start, stop, steps)
        == Stream(codes + SequenceFrom(cs, code, stop, left).codes, SequenceFrom(cs, code, stop, left).end)
      decreases left
    {
      if |cs| == 0 {
        return codes, Raised(IndexError);
      }
      if left == 0 {
        return codes, Cut;
      }
      var next := Services.Advance(cs, code);
      if next.None? {
        return codes, Raised(ValueError);
      }
      SequenceFromStep(cs, code, stop, left);
      assert codes + SequenceFrom(cs, code, stop, left).codes
        == (codes + [next.value]) + SequenceFrom(cs, next.value, stop, left - 1).codes;
      codes := codes + [next.value];
      code := next.value;
      left := left - 1;
    }
    assert codes + [] == codes;
    end := Exhausted;
  }

  /** The stream starts with `start`; each later code is the successor of the
      one before; `stop` only ever comes last, and a generator that returned
      did so right after yielding `stop`. */
  lemma {:induction false} SequenceShape(cs: string, start: string, stop: string, steps: nat)
    ensures var s := Sequence(cs, start, stop, steps);
      && |s.codes| > 0 && s.codes[0] == start
      && (|s.codes| > 1 ==> |cs| > 0)
      && (forall i :: 1 <= i < |s.codes| ==> Services.Next(cs, s.codes[i - 1]) == Some(s.codes[i]))
      && (forall i :: 0 <= i < |s.codes| - 1 ==> s.codes[i] != stop)
      && (s.end == Exhausted ==> s.codes[|s.codes| - 1] == stop)
    decreases steps
  {
    if start != stop && |cs| > 0 && steps > 0 && Services.Next(cs, start).Some? {
      var c := Services.Next(cs, start).value;
      SequenceShape(cs, c, stop, steps - 1);
      var s := Sequence(cs, start, stop, steps);
      var t := Sequence(cs, c, stop, steps - 1);
      assert s.codes == [start] + t.codes && s.end == t.end;
      forall i | 0 < i < |s.codes|
        ensures Services.Next(cs, s.codes[i - 1]) == Some(s.codes[i])
      {
        if i > 1 { assert s.codes[i - 1] == t.codes[i - 2] && s.codes[i] == t.codes[i - 1]; }
      }
      forall i | 0 <= i < |s.codes| - 1 ensures s.codes[i] != stop {
        if i > 0 { assert s.codes[i] == t.codes[i - 1]; }
      }
    }
  }

  /** When `stop` lies k places after `start` in shortlex order over a charset
      without repeated symbols, and the bound allows k steps, the generator
      returns after exactly k + 1 codes, the i-th of which has rank
      rank(start) + i: they are distinct and increasing. */
  lemma {:induction false} SequenceEnumerates(cs: string, start: string, stop: string, steps: nat)
    requires Services.Distinct(cs) && |cs| > 0
    requires Services.InCharset(cs, start) && Services.InCharset(cs, stop)
    requires Services.Rank(cs, start) <= Services.Rank(cs, stop)
    requires Services.Rank(cs, stop) - Services.Rank(cs, start) <= steps
    ensures var s := Sequence(cs, start, stop, steps);
      && s.end == Exhausted
      && |s.codes| == Services.Rank(cs, stop) - Services.Rank(cs, start) + 1
      && RankedFrom(cs, s.codes, Services.Rank(cs, start))
    decreases steps
  {
    var s := Sequence(cs, start, stop, steps);
    if start == stop {
      assert s.codes == [start];
    } else {
      var r0, r1 := Services.Rank(cs, start), Services.Rank(cs, stop);
      NextBeforeStop(cs, start, stop);
      var c := Services.Next(cs, start).value;
      SequenceEnumerates(cs, c, stop, steps - 1);
      EnumeratesStep(cs, start, c, stop, steps, r0, r1);
    }
  }

  /** The successor of a code that ranks before `stop` ranks no later than
      `stop`. */
  lemma NextBeforeStop(cs: string, start: string, stop: string)
    requires Services.Distinct(cs) && |cs| > 0
    requires Services.InCharset(cs, start) && Services.InCharset(cs, stop)
    requires Services.Rank(cs, start) <= Services.Rank(cs, stop) && start != stop
    ensures Services.Next(cs, start).Some? && Services.InCharset(cs, Services.Next(cs, start).value)
    ensures Services.Rank(cs, Services.Next(cs, start).value) == Services.Rank(cs, start) + 1
    ensures Services.Rank(cs, start) < Services.Rank(cs, stop)
  {
    if Services.Rank(cs, start) == Services.Rank(cs, stop) {
      Services.RankInjective(cs, start, stop);
    }
    Services.NextIncrementsRank(cs, start);
  }

  /** The enumeration from the successor `c` of `start`, with `start` in
      front. */
  lemma EnumeratesStep(cs: string, start: string, c: string, stop: string, steps: nat, r0: nat, r1: nat)
    requires start != stop && |cs| > 0 && steps > 0
    requires Services.InCharset(cs, start) && Services.InCharset(cs, stop) && Services.InCharset(cs, c)
    requires r0 == Services.Rank(cs, start) && r1 == Services.Rank(cs, stop)
    requires Services.Next(cs, start) == Some(c) && Services.Rank(cs, c) == r0 + 1
    requires var t := Sequence(cs, c, stop, steps - 1);
      t.end == Exhausted && |t.codes| == r1 - (r0 + 1) + 1 && RankedFrom(cs, t.codes, r0 + 1)
    ensures var s := Sequence(cs, start, stop, steps);
      s.end == Exhausted && |s.codes| == r1 - r0 + 1 && RankedFrom(cs, s.codes, r0)
  {
    var t := Sequence(cs, c, stop, steps - 1);
    SequenceStep(cs, start, stop, steps);
    RanksCons(cs, start, t.codes, r0);
  }

  /** One successor step after `code`. */
  lemma SequenceFromStep(cs: string, code: string, stop: string, steps: nat)
    requires code != stop && |cs| > 0 && steps > 0 && Services.Next(cs, code).Some?
    ensures var c := Services.Next(cs, code).value;
      var t := SequenceFrom(cs, c, stop, steps - 1);
      SequenceFrom(cs, code, stop, steps) == Stream([c] + t.codes, t.end)
  {
  }

  /** One step of the generator: `start`, then the stream from its
      successor. */
  lemma SequenceStep(cs: string, start: string, stop: string, steps: nat)
    requires start != stop && |cs| > 0 && steps > 0 && Services.Next(cs, start).Some?
    ensures var t := Sequence(cs, Services.Next(cs, start).value, stop, steps - 1);
      Sequence(cs, start, stop, steps) == Stream([start] + t.codes, t.end)
  {
  }

  /** The codes lie over the charset and the i-th has rank `r0 + i`. */
  predicate RankedFrom(cs: string, codes: seq<string>, r0: nat) {
    forall i :: 0 <= i < |codes| ==>
      Services.InCharset(cs, codes[i]) && Services.Rank(cs, codes[i]) == r0 + i
  }

  /** Prepending a code of rank `r0` to codes ranked from `r0 + 1` on. */
  lemma RanksCons(cs: string, start: string, codes: seq<string>, r0: nat)
    requires Services.InCharset(cs, start) && Services.Rank(cs, start) == r0
    requires RankedFrom(cs, codes, r0 + 1)
    ensures RankedFrom(cs, [start] + codes, r0)
  {
    var s := [start] + codes;
    forall i | 0 <= i < |s|
      ensures Services.InCharset(cs, s[i]) && Services.Rank(cs, s[i]) == r0 + i
    {
      if i > 0 { assert s[i] == codes[i - 1]; }
    }
  }

  /** Codes of the enumeration come in strictly increasing shortlex order, so
      no code is yielded twice. */
  lemma SequenceIncreasing(cs: string, start: string, stop: string, steps: nat, i: nat, j: nat)
    requires Services.Distinct(cs) && |cs| > 0
    requires Services.InCharset(cs, start) && Services.InCharset(cs, stop)
    requires Services.Rank(cs, start) <= Services.Rank(cs, stop)
    requires Services.Rank(cs, stop) - Services.Rank(cs, start) <= steps
    requires i < j < |Sequence(cs, start, stop, steps).codes|
    ensures var s := Sequence(cs, start, stop, steps);
      && s.codes[i] != s.codes[j]
      && |s.codes[i]| <= |s.codes[j]|
      && Services.InCharset(cs, s.codes[i]) && Services.InCharset(cs, s.codes[j])
      && Services.Rank(cs, s.codes[i]) < Services.Rank(cs, s.codes[j])
  {
    SequenceEnumerates(cs, start, stop, steps);
    var s := Sequence(cs, start, stop, steps);
    Services.RankIsShortlex(cs, s.codes[i]);
    Services.RankIsShortlex(cs, s.codes[j]);
    if |s.codes[j]| < |s.codes[i]| {
      ShorterMono(|cs|, |s.codes[j]| + 1, |s.codes[i]|);
    }
  }

  lemma {:induction false} ShorterMono(n: nat, a: nat, b: nat)
    requires n > 0 && a <= b
    ensures Services.Shorter(n, a) <= Services.Shorter(n, b)
    decreases b - a
  {
    if a < b {
      ShorterMono(n, a, b - 1);
      Services.MulMono(Services.Shorter(n, b - 1), 1, n);
    }
  }

  /** A `start` that lies after `stop` is never brought back to it: however
      large the bound, the generator does not return. */
  lemma {:induction false} SequencePastStop(cs: string, start: string, stop: string, steps: nat)
    requires Services.Distinct(cs) && |cs| > 0
    requires Services.InCharset(cs, start) && Services.InCharset(cs, stop)
    requires Services.Rank(cs, stop) < Services.Rank(cs, start)
    ensures SequenceFrom(cs, start, stop, steps).end == Cut
    decreases steps
  {
    if steps > 0 {
      Services.NextIncrementsRank(cs, start);
      SequencePastStop(cs, Services.Next(cs, start).value, stop, steps - 1);
    }
  }

  // ---------------------------------------------------------------------------
  // chain_generator

  /** Rejection threshold: a byte above `m` is skipped. */
  function Threshold(n: nat): (m: int)
    requires n > 0
    ensures 0 <= m <= 256
    ensures n <= 256 ==> 256 - n < m
  {
    256 - 256 % n
  }

  /** The threshold is a multiple of the charset size. */
  lemma ThresholdDivides(n: nat)
    requires n > 0
    ensures Threshold(n) % n == 0
  {
    var m := Threshold(n);
    Services.DivUnique(n, 256 / n, 0, m / n, m % n);
  }

  /** `r` is `d` with some of its elements left out and the others kept in
      order. */
  predicate Subsequence(r: seq<Byte>, d: seq<Byte>)
    decreases |d|
  {
    if |r| == 0 then true
    else if |d| == 0 then false
    else if r[|r| - 1] == d[|d| - 1] then Subsequence(r[..|r| - 1], d[..|d| - 1])
    else Subsequence(r, d[..|d| - 1])
  }

  /** The bytes of a digest not above `m`, in order: every such byte as
      often as the digest holds it, and no other. */
  function Accepted(d: seq<Byte>, m: int): (r: seq<Byte>)
    ensures |r| <= |d|
    ensures forall i :: 0 <= i < |r| ==> r[i] <= m
    ensures forall b :: b in r <==> b in d && b <= m
    ensures Subsequence(r, d)
    ensures forall b :: multiset(r)[b] == if b <= m then multiset(d)[b] else 0
  {
    KeptFilters(d, m);
    Kept(d, m)
  }

  /** The skip loop over a digest, one byte at a time from the front. */
  function Kept(d: seq<Byte>, m: int): seq<Byte>
    decreases |d|
  {
    if |d| == 0 then []
    else
      var x := d[|d| - 1];
      if x <= m then Kept(d[..|d| - 1], m) + [x] else Kept(d[..|d| - 1], m)
  }

  /** `Kept` keeps exactly the bytes not above `m`, in order and with their
      multiplicities. */
  lemma {:induction false} KeptFilters(d: seq<Byte>, m: int)
    ensures var r := Kept(d, m);
      && |r| <= |d|
      && (forall i :: 0 <= i < |r| ==> r[i] <= m)
      && (forall b :: b in r <==> b in d && b <= m)
      && Subsequence(r, d)
      && (forall b :: multiset(r)[b] == if b <= m then multiset(d)[b] else 0)
    decreases |d|
  {
    if |d| > 0 {
      var e, x := d[..|d| - 1], d[|d| - 1];
      KeptFilters(e, m);
      assert d == e + [x];
      FilterSnoc(Kept(e, m), e, x, m);
      FilterSnocCount(Kept(e, m), e, x, m);
    }
  }

  /** The order and membership properties of `Accepted` survive one more
      byte of the digest. */
  lemma FilterSnoc(p: seq<Byte>, e: seq<Byte>, x: Byte, m: int)
    requires |p| <= |e|
    requires forall i :: 0 <= i < |p| ==> p[i] <= m
    requires forall b :: b in p <==> b in e && b <= m
    requires Subsequence(p, e)
    ensures var r := if x <= m then p + [x] else p;
      && |r| <= |e + [x]|
      && (forall i :: 0 <= i < |r| ==> r[i] <= m)
      && (forall b :: b in r <==> b in e + [x] && b <= m)
      && Subsequence(r, e + [x])
  {
    var d := e + [x];
    assert d[..|d| - 1] == e;
    if x <= m {
      assert (p + [x])[..|p|] == p;
    }
  }

  /** So do the counts of `Accepted`. */
  lemma FilterSnocCount(p: seq<Byte>, e: seq<Byte>, x: Byte, m: int)
    requires forall b :: multiset(p)[b] == if b <= m then multiset(e)[b] else 0
    ensures var r := if x <= m then p + [x] else p;
      forall b :: multiset(r)[b] == if b <= m then multiset(e + [x])[b] else 0
  {
    assert multiset(e + [x]) == multiset(e) + multiset{x};
    if x <= m {
      assert multiset(p + [x]) == multiset(p) + multiset{x};
    }
  }


  /** Accepting the bytes of a prefix gives a prefix of the accepted bytes. */
  lemma {:induction false} AcceptedPrefix(d: seq<Byte>, m: int, j: nat)
    requires j <= |d|
    ensures |Accepted(d[..j], m)| <= |Accepted(d, m)|
    ensures Accepted(d[..j], m) == Accepted(d, m)[..|Accepted(d[..j], m)|]
    decreases |d| - j
  {
    if j < |d| {
      var e := d[..|d| - 1];
      assert e[..j] == d[..j];
      AcceptedPrefix(e, m, j);
    } else {
      assert d[..j] == d;
    }
  }

  /** One more byte of the digest: it is appended when acceptable. */
  lemma KeptStep(d: seq<Byte>, m: int, j: nat)
    requires j < |d|
    ensures Kept(d[..j + 1], m) == if d[j] <= m then Kept(d[..j], m) + [d[j]] else Kept(d[..j], m)
  {
    assert d[..j + 1][..j] == d[..j];
  }

  /** The symbols of one more byte. */
  lemma SymbolsSnoc(cs: string, bs: seq<Byte>, b: Byte)
    requires |cs| > 0
    ensures Symbols(cs, bs + [b]) == Symbols(cs, bs) + [SymbolOf(cs, b)]
  {
  }

  /** A digest whose bytes are all acceptable is taken whole. */
  lemma {:induction false} AcceptedAll(d: seq<Byte>, m: int)
    requires forall i :: 0 <= i < |d| ==> d[i] <= m
    ensures Accepted(d, m) == d
    decreases |d|
  {
    if |d| > 0 {
      AcceptedAll(d[..|d| - 1], m);
      assert d == d[..|d| - 1] + [d[|d| - 1]];
    }
  }

  /** `charset[byte % len(charset)]`. */
  function SymbolOf(cs: string, b: Byte): (c: char)
    requires |cs| > 0
    ensures c in cs
  {
    cs[b % |cs|]
  }

  /** `charset[byte % len(charset)]` for each byte. */
  function Symbols(cs: string, bs: seq<Byte>): (r: string)
    requires |cs| > 0
    ensures |r| == |bs| && Services.InCharset(cs, r)
    ensures forall i :: 0 <= i < |bs| ==> r[i] == SymbolOf(cs, bs[i])
  {
    seq(|bs|, i requires 0 <= i < |bs| => SymbolOf(cs, bs[i]))
  }

  /** The code the inner loop builds from one digest: the symbols of its first
      `length` acceptable bytes, or nothing when it has fewer (or when
      `length` is below 1, which a growing code never equals). */
  function Extract(d: seq<Byte>, cs: string, length: int, m: int): (r: Option<string>)
    requires |cs| > 0
    ensures r.Some? <==> 1 <= length <= |Accepted(d, m)|
    ensures r.Some? ==> |r.value| == length && Services.InCharset(cs, r.value)
  {
    var a := Kept(d, m);
    if 1 <= length <= |a| then Some(Symbols(cs, a[..length])) else None
  }

  /** The inner for loop of `chain_generator`: walk the digest, skip bytes
      above `m`, append a symbol per kept byte, stop at `length` symbols. */
  method ExtractCode(d: seq<Byte>, cs: string, length: int, m: int) returns (code: Option<string>)
    requires |cs| > 0
    ensures code == Extract(d, cs, length, m)
  {
    var c := "";
    var j := 0;
    ghost var kept: seq<Byte> := [];
    while j < |d|
      invariant 0 <= j <= |d|
      invariant kept == Kept(d[..j], m)
      invariant c == Symbols(cs, kept)
      invariant !(1 <= length <= |kept|)
    {
      var byte := d[j];
      ExtractStep(d, cs, m, j, kept);
      if byte <= m {
        c := c + [SymbolOf(cs, byte)];
        kept := kept + [byte];
        if |c| == length {
          ExtractAt(d, cs, length, m, j + 1);
          return Some(c);
        }
      }
      j := j + 1;
    }
    ExtractNone(d, cs, length, m);
    code := None;
  }

  /** One byte more of the inner loop: it is kept, and its symbol appended,
      when it is acceptable. */
  lemma ExtractStep(d: seq<Byte>, cs: string, m: int, j: nat, kept: seq<Byte>)
    requires |cs| > 0 && j < |d| && kept == Kept(d[..j], m)
    ensures Kept(d[..j + 1], m) == if d[j] <= m then kept + [d[j]] else kept
    ensures Symbols(cs, kept + [d[j]]) == Symbols(cs, kept) + [SymbolOf(cs, d[j])]
  {
    KeptStep(d, m, j);
    SymbolsSnoc(cs, kept, d[j]);
  }

  /** A digest with fewer than `length` acceptable bytes gives no code. */
  lemma ExtractNone(d: seq<Byte>, cs: string, length: int, m: int)
    requires |cs| > 0 && !(1 <= length <= |Kept(d[..|d|], m)|)
    ensures Extract(d, cs, length, m) == None
  {
    assert d[..|d|] == d;
  }

  /** Once a prefix of the digest has given `length` acceptable bytes, the
      code is their symbols. */
  lemma ExtractAt(d: seq<Byte>, cs: string, length: int, m: int, j: nat)
    requires |cs| > 0 && j <= |d|
    requires 1 <= length == |Kept(d[..j], m)|
    ensures Extract(d, cs, length, m) == Some(Symbols(cs, Kept(d[..j], m)))
  {
    AcceptedPrefix(d, m, j);
  }

  /** The digests of the chain: each is the hash of the one before, the first
      the hash of the seed. */
  function Digests(hash: seq<Byte> -> seq<Byte>, seed: seq<Byte>, rounds: nat): (r: seq<seq<Byte>>)
    ensures |r| == rounds
    ensures rounds > 0 ==> r[0] == hash(seed)
    ensures forall i :: 0 < i < rounds ==> r[i] == hash(r[i - 1])
    decreases rounds
  {
    if rounds == 0 then [] else [hash(seed)] + Digests(hash, hash(seed), rounds - 1)
  }

  /** Every code the digests give, with no limit on their number. */
  function Candidates(ds: seq<seq<Byte>>, cs: string, length: int, m: int): (r: seq<string>)
    requires |cs| > 0
    ensures |r| <= |ds|
    ensures forall i :: 0 <= i < |r| ==> |r[i]| == length && Services.InCharset(cs, r[i])
  {
    if |ds| == 0 then []
    else
      match Extract(ds[0], cs, length, m)
      case None => Candidates(ds[1..], cs, length, m)
      case Some(c) => [c] + Candidates(ds[1..], cs, length, m)
  }

  /** The `while count < options["count"]` loop from `digest`, with `left`
      codes still wanted and at most `rounds` hash rounds. */
  function ChainFrom(hash: seq<Byte> -> seq<Byte>, cs: string, length: int, m: int,
                     digest: seq<Byte>, left: int, rounds: nat): Stream
    requires |cs| > 0
    decreases rounds
  {
    if left <= 0 then Stream([], Exhausted)
    else if rounds == 0 then Stream([], Cut)
    else
      var d := hash(digest);
      match Extract(d, cs, length, m)
      case None => ChainFrom(hash, cs, length, m, d, left, rounds - 1)
      case Some(c) =>
        var t := ChainFrom(hash, cs, length, m, d, left - 1, rounds - 1);
        Stream([c] + t.codes, t.end)
  }

  /** `chain_generator`: the length check and `256 % len(charset)` come
      before the first hash. */
  function Chain(hash: seq<Byte> -> seq<Byte>, cs: string, length: int, count: int,
                 seed: seq<Byte>, rounds: nat): (s: Stream)
    ensures length > DigestSize ==> s == Stream([], Raised(ValueError))
    ensures length <= DigestSize && |cs| == 0 ==> s == Stream([], Raised(ZeroDivisionError))
  {
    if length > DigestSize then Stream([], Raised(ValueError))
    else if |cs| == 0 then Stream([], Raised(ZeroDivisionError))
    else ChainFrom(hash, cs, length, Threshold(|cs|), seed, count, rounds)
  }

  function Min(a: int, b: int): int {
    if a < b then a else b
  }

  /** The chain yields the first wanted codes of its digests: all of them
      when there are fewer than wanted (then the bound cut it), exactly
      `left` when it returned. */
  lemma {:induction false} ChainTakesCandidates(hash: seq<Byte> -> seq<Byte>, cs: string, length: int, m: int,
                                             digest: seq<Byte>, left: int, rounds: nat)
    requires |cs| > 0
    ensures TakesFirst(ChainFrom(hash, cs, length, m, digest, left, rounds),
                       Candidates(Digests(hash, digest, rounds), cs, length, m), left)
    decreases rounds
  {
    if left > 0 && rounds > 0 {
      var d := hash(digest);
      var e := Extract(d, cs, length, m);
      CandidatesStep(hash, digest, cs, length, m, rounds);
      ChainStep(hash, cs, length, m, digest, left, rounds);
      var rest := Candidates(Digests(hash, d, rounds - 1), cs, length, m);
      var left' := if e.None? then left else left - 1;
      var t := ChainFrom(hash, cs, length, m, d, left', rounds - 1);
      ChainTakesCandidates(hash, cs, length, m, d, left', rounds - 1);
      TakesStep(ChainFrom(hash, cs, length, m, digest, left, rounds),
                Candidates(Digests(hash, digest, rounds), cs, length, m), left, e, t, rest);
    }
  }

  /** One digest more: the chain and the candidates both gain its code, if
      it has one. */
  lemma TakesStep(s: Stream, cands: seq<string>, left: int, e: Option<string>, t: Stream, rest: seq<string>)
    requires left > 0
    requires e.None? ==> s == t && cands == rest && TakesFirst(t, rest, left)
    requires e.Some? ==> s == Stream([e.value] + t.codes, t.end) && cands == [e.value] + rest && TakesFirst(t, rest, left - 1)
    ensures TakesFirst(s, cands, left)
  {
    if e.Some? {
      TakesCons(t, e.value, rest, left);
    }
  }

  /** The codes already yielded, followed by a stream. */
  function Then(codes: seq<string>, t: Stream): Stream {
    Stream(codes + t.codes, t.end)
  }

  lemma ThenCons(codes: seq<string>, c: string, t: Stream)
    ensures Then(codes, Stream([c] + t.codes, t.end)) == Then(codes + [c], t)
  {
    assert codes + ([c] + t.codes) == (codes + [c]) + t.codes;
  }

  /** One round of the chain, by whether its digest gives a code. */
  lemma ChainStep(hash: seq<Byte> -> seq<Byte>, cs: string, length: int, m: int,
                  digest: seq<Byte>, left: int, rounds: nat)
    requires |cs| > 0 && left > 0 && rounds > 0
    ensures var d := hash(digest);
      var e := Extract(d, cs, length, m);
      && (e.None? ==> ChainFrom(hash, cs, length, m, digest, left, rounds) == ChainFrom(hash, cs, length, m, d, left, rounds - 1))
      && (e.Some? ==>
            var t := ChainFrom(hash, cs, length, m, d, left - 1, rounds - 1);
            ChainFrom(hash, cs, length, m, digest, left, rounds) == Stream([e.value] + t.codes, t.end))
  {
  }

  /** One round of the chain after the codes already yielded. */
  lemma ThenStep(hash: seq<Byte> -> seq<Byte>, cs: string, length: int, m: int,
                 digest: seq<Byte>, codes: seq<string>, left: int, rounds: nat, e: Option<string>)
    requires |cs| > 0 && left > 0 && rounds > 0 && e == Extract(hash(digest), cs, length, m)
    ensures e.None? ==>
      Then(codes, ChainFrom(hash, cs, length, m, digest, left, rounds))
        == Then(codes, ChainFrom(hash, cs, length, m, hash(digest), left, rounds - 1))
    ensures e.Some? ==>
      Then(codes, ChainFrom(hash, cs, length, m, digest, left, rounds))
        == Then(codes + [e.value], ChainFrom(hash, cs, length, m, hash(digest), left - 1, rounds - 1))
  {
    ChainStep(hash, cs, length, m, digest, left, rounds);
    if e.Some? {
      ThenCons(codes, e.value, ChainFrom(hash, cs, length, m, hash(digest), left - 1, rounds - 1));
    }
  }

  /** Taking the first `left` of `[c] + rest` is taking `c` and then the first
      `left - 1` of `rest`. */
  lemma TakesCons(t: Stream, c: string, rest: seq<string>, left: int)
    requires left > 0 && TakesFirst(t, rest, left - 1)
    ensures TakesFirst(Stream([c] + t.codes, t.end), [c] + rest, left)
  {
    assert ([c] + rest)[..Min(left, |rest| + 1)] == [c] + rest[..Min(left - 1, |rest|)];
  }

  /** A stream that is the first `left` of `cands`, returned exactly when
      there were enough of them, and cut otherwise. */
  predicate TakesFirst(s: Stream, cands: seq<string>, left: int) {
    && s.codes == cands[..Min(if left < 0 then 0 else left, |cands|)]
    && (s.end == Exhausted <==> left <= |cands|)
    && (s.end != Exhausted ==> s.end == Cut)
  }

  /** The candidates of a chain of digests: those of the first digest, then
      those of the chain from it. */
  lemma CandidatesStep(hash: seq<Byte> -> seq<Byte>, digest: seq<Byte>, cs: string, length: int, m: int, rounds: nat)
    requires |cs| > 0 && rounds > 0
    ensures var d := hash(digest);
      var rest := Candidates(Digests(hash, d, rounds - 1), cs, length, m);
      Candidates(Digests(hash, digest, rounds), cs, length, m)
        == match Extract(d, cs, length, m)
           case None => rest
           case Some(c) => [c] + rest
  {
    var ds := Digests(hash, digest, rounds);
    assert ds[1..] == Digests(hash, hash(digest), rounds - 1);
  }

  /** What the source promises of every chain: codes of exactly `length`
      charset symbols, never more than `count` of them, and `count` of them
      when it returned. */
  lemma ChainCodes(hash: seq<Byte> -> seq<Byte>, cs: string, length: int, count: int,
                   seed: seq<Byte>, rounds: nat)
    ensures var s := Chain(hash, cs, length, count, seed, rounds);
      && (forall i :: 0 <= i < |s.codes| ==> |s.codes[i]| == length && Services.InCharset(cs, s.codes[i]))
      && |s.codes| <= (if count < 0 then 0 else count)
      && (s.end == Exhausted ==> |s.codes| == (if count < 0 then 0 else count))
  {
    if length <= DigestSize && |cs| > 0 {
      ChainTakesCandidates(hash, cs, length, Threshold(|cs|), seed, count, rounds);
    }
  }

  /** A larger bound only extends the chain: the codes yielded so far never
      change. */
  lemma ChainExtends(hash: seq<Byte> -> seq<Byte>, cs: string, length: int, m: int,
                     digest: seq<Byte>, left: int, rounds: nat)
    requires |cs| > 0
    ensures var s := ChainFrom(hash, cs, length, m, digest, left, rounds);
      var t := ChainFrom(hash, cs, length, m, digest, left, rounds + 1);
      && |s.codes| <= |t.codes| && s.codes == t.codes[..|s.codes|]
      && (s.end == Exhausted ==> t == s)
  {
    ChainTakesCandidates(hash, cs, length, m, digest, left, rounds);
    ChainTakesCandidates(hash, cs, length, m, digest, left, rounds + 1);
    CandidatesExtend(hash, digest, cs, length, m, rounds);
  }

  lemma {:induction false} CandidatesExtend(hash: seq<Byte> -> seq<Byte>, digest: seq<Byte>, cs: string,
                                         length: int, m: int, rounds: nat)
    requires |cs| > 0
    ensures var a := Candidates(Digests(hash, digest, rounds), cs, length, m);
      var b := Candidates(Digests(hash, digest, rounds + 1), cs, length, m);
      |a| <= |b| && a == b[..|a|]
    decreases rounds
  {
    var d := hash(digest);
    var ds := Digests(hash, digest, rounds + 1);
    assert ds[0] == d && ds[1..] == Digests(hash, d, rounds);
    if rounds > 0 {
      var es := Digests(hash, digest, rounds);
      assert es[0] == d && es[1..] == Digests(hash, d, rounds - 1);
      CandidatesExtend(hash, d, cs, length, m, rounds - 1);
    }
  }

  /** The skip test is `byte > m`, so the byte equal to `m` is kept.  When
      the charset size does not divide 256 that byte is a real byte value and
      maps to `charset[0]`, which then has one more preimage than the other
      symbols. */
  lemma BoundaryByteKept(cs: string)
    requires 0 < |cs| < 256 && 256 % |cs| != 0
    ensures Threshold(|cs|) < 256
    ensures Extract([Threshold(|cs|) as Byte], cs, 1, Threshold(|cs|)) == Some([cs[0]])
  {
    var m := Threshold(|cs|);
    ThresholdDivides(|cs|);
    var d: seq<Byte> := [m as Byte];
    AcceptedAll(d, m);
    assert Accepted(d, m)[..1] == d;
    SymbolOfMultiple(cs, m as Byte);
  }

  /** The number of byte values below `limit` that map to symbol `k` of a
      charset of `n` symbols. A skip test `byte > m` keeps the bytes below
      `m + 1`; `byte >= m` would keep those below `m`. */
  function Preimages(limit: nat, n: nat, k: nat): nat
    requires n > 0
  {
    if limit == 0 then 0
    else Preimages(limit - 1, n, k) + (if (limit - 1) % n == k then 1 else 0)
  }

  /** The byte value `n * q + r - 1` maps to symbol `r - 1`. */
  lemma BlockStep(n: nat, q: nat, r: nat, k: nat)
    requires 0 < n && k < n && 0 < r <= n
    ensures Preimages(n * q + r, n, k) == Preimages(n * q + r - 1, n, k) + (if k == r - 1 then 1 else 0)
  {
    var x := n * q + r - 1;
    Services.DivUnique(n, x / n, x % n, q, r - 1);
    assert x % n == r - 1;
  }

  /** The threshold is `256 / n` whole blocks of `n` byte values. */
  lemma ThresholdBlocks(n: nat) returns (q: nat)
    requires n > 0
    ensures q == 256 / n && Threshold(n) == n * q && Threshold(n) / n == q
  {
    var m := Threshold(n);
    q := 256 / n;
    ThresholdDivides(n);
    Services.DivUnique(n, q, 0, m / n, m % n);
  }

  /** Below `n * q + r` every symbol has `q` preimages, and those before
      symbol `r` one more. */
  lemma {:induction false} PreimagesBlocks(n: nat, q: nat, r: nat, k: nat)
    requires 0 < n && k < n && r <= n
    ensures Preimages(n * q + r, n, k) == q + (if k < r then 1 else 0)
    decreases q, r
  {
    if r > 0 {
      BlockStep(n, q, r, k);
      PreimagesBlocks(n, q, r - 1, k);
    } else if q > 0 {
      assert n * q + r == n * (q - 1) + n;
      PreimagesBlocks(n, q - 1, n, k);
    }
  }

  /** The byte values 0 to `limit` − 1, in order. */
  function ByteRange(limit: nat): (r: seq<Byte>)
    requires limit <= 256
    ensures |r| == limit && forall i :: 0 <= i < limit ==> r[i] == i
  {
    seq(limit, i requires 0 <= i < limit => i as Byte)
  }

  /** How many bytes of `bs` map to symbol `k` of a charset of `n` symbols. */
  function SymbolCount(bs: seq<Byte>, n: nat, k: nat): nat
    requires n > 0
  {
    if |bs| == 0 then 0
    else SymbolCount(bs[..|bs| - 1], n, k) + (if bs[|bs| - 1] % n == k then 1 else 0)
  }

  /** Counting the symbols of the byte values below `limit` is counting
      their preimages. */
  lemma {:induction false} SymbolCountRange(limit: nat, n: nat, k: nat)
    requires limit <= 256 && n > 0
    ensures SymbolCount(ByteRange(limit), n, k) == Preimages(limit, n, k)
  {
    if limit > 0 {
      assert ByteRange(limit)[..limit - 1] == ByteRange(limit - 1);
      SymbolCountRange(limit - 1, n, k);
    }
  }

  /** Over the byte values below `limit`, the skip test `byte > m` keeps
      exactly those up to `m`. */
  lemma {:induction false} AcceptedRange(limit: nat, m: int)
    requires limit <= 256 && m >= -1
    ensures Accepted(ByteRange(limit), m) == ByteRange(Min(limit, m + 1))
  {
    if limit > 0 {
      var d := ByteRange(limit);
      assert d[..limit - 1] == ByteRange(limit - 1);
      AcceptedRange(limit - 1, m);
      if limit - 1 <= m {
        assert ByteRange(limit - 1) + [limit - 1] == ByteRange(limit);
      }
    }
  }

  /** The corrected inner loop would skip `byte >= m`: it keeps the bytes
      below `m`, in order and as often as the digest holds them. */
  function KeptIntended(d: seq<Byte>, m: int): (r: seq<Byte>)
    ensures forall i :: 0 <= i < |r| ==> r[i] < m
    ensures Subsequence(r, d)
    ensures forall b :: multiset(r)[b] == if b < m then multiset(d)[b] else 0
  {
    Accepted(d, m - 1)
  }

  /** As written, the skip test `byte > m` lets the `m + 1` byte values
      0 to m through; corrected, `byte >= m` lets the `m` values below m. */
  lemma KeptAsWritten(n: nat)
    requires n > 0
    ensures Accepted(ByteRange(256), Threshold(n)) == ByteRange(Min(256, Threshold(n) + 1))
    ensures Threshold(n) < 256 ==> |Accepted(ByteRange(256), Threshold(n))| == Threshold(n) + 1
    ensures KeptIntended(ByteRange(256), Threshold(n)) == ByteRange(Threshold(n))
  {
    AcceptedRange(256, Threshold(n));
    AcceptedRange(256, Threshold(n) - 1);
  }

  /** As written, when the charset size does not divide 256, `charset[0]`
      is the symbol of one byte value more than every other symbol. */
  lemma KeptBytesBiased(n: nat)
    requires 0 < n && 256 % n != 0
    ensures SymbolCount(Accepted(ByteRange(256), Threshold(n)), n, 0) == Threshold(n) / n + 1
    ensures forall k :: 0 < k < n ==> SymbolCount(Accepted(ByteRange(256), Threshold(n)), n, k) == Threshold(n) / n
  {
    var q := ThresholdBlocks(n);
    KeptAsWritten(n);
    BlocksCount(Accepted(ByteRange(256), Threshold(n)), n, q, 1);
  }

  /** With the corrected skip test every symbol is the symbol of the same
      number m / n of byte values. */
  lemma IntendedUniform(n: nat)
    requires n > 0
    ensures forall k :: 0 <= k < n ==> SymbolCount(KeptIntended(ByteRange(256), Threshold(n)), n, k) == Threshold(n) / n
  {
    var m := Threshold(n);
    var q := ThresholdBlocks(n);
    AcceptedRange(256, m - 1);
    var kept := KeptIntended(ByteRange(256), m);
    assert kept == ByteRange(n * q + 0);
    BlocksCount(kept, n, q, 0);
  }

  /** The byte values below `n * q + r` give every symbol `q` times, and
      the symbols below `r` once more. */
  lemma BlocksCount(bs: seq<Byte>, n: nat, q: nat, r: nat)
    requires 0 < n && r <= n && n * q + r <= 256
    requires bs == ByteRange(n * q + r)
    ensures forall k :: 0 <= k < n ==> SymbolCount(bs, n, k) == q + (if k < r then 1 else 0)
  {
    forall k | 0 <= k < n ensures SymbolCount(bs, n, k) == q + (if k < r then 1 else 0) {
      SymbolCountRange(n * q + r, n, k);
      PreimagesBlocks(n, q, r, k);
    }
  }

  /** A byte that is a multiple of the charset size maps to `charset[0]`. */
  lemma SymbolOfMultiple(cs: string, b: Byte)
    requires |cs| > 0 && b % |cs| == 0
    ensures Symbols(cs, [b]) == [cs[0]]
  {
    var r := Symbols(cs, [b]);
    assert r[0] == cs[0];
  }

  /** `chain_generator` as a loop updating `digest`, `count` and `code`, with
      at most `rounds` hash rounds. */
  method ChainGenerator(hash: seq<Byte> -> seq<Byte>, cs: string, length: int, count: int,
                        seed: seq<Byte>, rounds: nat) returns (codes: seq<string>, end: End)
    ensures Stream(codes, end) == Chain(hash, cs, length, count, seed, rounds)
  {
    if length > DigestSize {
      return [], Raised(ValueError);
    }
    if |cs| == 0 {
      return [], Raised(ZeroDivisionError);
    }
    var m := 256 - 256 % |cs|;
    ghost var whole := Chain(hash, cs, length, count, seed, rounds);
    assert whole == ChainFrom(hash, cs, length, m, seed, count, rounds);
    var digest := seed;
    var n := 0;
    var left := rounds;
    codes := [];
    while n < count
      invariant whole == Then(codes, ChainFrom(hash, cs, length, m, digest, count - n, left))
      decreases left
    {
      if left == 0 {
        return codes, Cut;
      }
      ghost var prev := digest;
      digest := hash(digest);
      var code := ExtractCode(digest, cs, length, m);
      ThenStep(hash, cs, length, m, prev, codes, count - n, left, code);
      if code.Some? {
        assert count - n - 1 == count - (n + 1);
        n := n + 1;
        codes := codes + [code.value];
      }
      left := left - 1;
    }
    assert codes + [] == codes;
    end := Exhausted;
  }
}
