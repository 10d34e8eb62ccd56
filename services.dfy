/** lib/tinyback/services.rb: the error classes of the service adapters and
    `Base.advance`, the successor function of a service's code space. */
module Services {
  import opened Wrappers

  /** The exception classes declared by the service layer. */
  datatype ErrorClass =
    | ServiceError
    | FetchError
    | ServiceBlockedError
    | InvalidCodeError
    | NoRedirectError
    | CodeBlockedError

  /** The declared superclass; None for ServiceError, a RuntimeError. */
  function Superclass(c: ErrorClass): Option<ErrorClass> {
    match c
    case ServiceError => None
    case FetchError => Some(ServiceError)
    case ServiceBlockedError => Some(FetchError)
    case InvalidCodeError => Some(ServiceError)
    case NoRedirectError => Some(ServiceError)
    case CodeBlockedError => Some(ServiceError)
  }

  function Depth(c: ErrorClass): nat {
    match c
    case ServiceError => 0
    case ServiceBlockedError => 2
    case _ => 1
  }

  /** Ruby's `kind_of?` (and `Class === e` in a `case`). */
  predicate KindOf(c: ErrorClass, k: ErrorClass)
    decreases Depth(c)
  {
    c == k || (Superclass(c).Some? && Depth(Superclass(c).value) < Depth(c) && KindOf(Superclass(c).value, k))
  }

  /** Of the error classes only ServiceBlockedError is a FetchError besides
      FetchError itself, and every class is a ServiceError. */
  lemma FetchErrorKinds(c: ErrorClass)
    ensures KindOf(c, FetchError) <==> c == FetchError || c == ServiceBlockedError
    ensures KindOf(c, ServiceError)
  {
  }

  /** What an adapter's `fetch` can raise.  Besides the service errors: the
      NameError of raising a constant nobody defines (tinyurl.rb raises
      `BlockedError`, which does not exist), the NoMethodError of calling a
      method on nil, the socket errors the reaper retries on, and anything
      else (URI::InvalidURIError, a broken pipe, ...). */
  datatype Exception =
    | Error(cls: ErrorClass)
    | NameError
    | NoMethodError
    | ConnectionReset
    | ConnectionRefused
    | ConnectionTimedOut
    | OtherException

  /** The outcome of one `fetch`: the long URL, or the exception it raises. */
  datatype Response = Found(url: string) | Raise(e: Exception)

  // ---------------------------------------------------------------------------
  // Code space

  /** The `n` consecutive characters from `lo` on. */
  function Span(lo: char, n: nat): (r: string)
    requires lo as int + n < 0xD800
    ensures |r| == n && forall i :: 0 <= i < n ==> r[i] == (lo as int + i) as char
  {
    seq(n, i requires 0 <= i < n => (lo as int + i) as char)
  }

  /** Membership in a span is a range test. */
  lemma SpanHas(lo: char, n: nat, x: char)
    requires lo as int + n < 0xD800
    ensures x in Span(lo, n) <==> lo as int <= x as int < lo as int + n
  {
    if lo as int <= x as int < lo as int + n {
      assert Span(lo, n)[x as int - lo as int] == x;
    }
  }

  /** The k-th character of a span is found at position k. */
  lemma SpanIndex(lo: char, n: nat, k: nat)
    requires lo as int + n < 0xD800 && k < n
    ensures IndexOf(Span(lo, n), (lo as int + k) as char) == Some(k)
  {
    var s := Span(lo, n);
    assert forall i :: 0 <= i < k ==> s[..k][i] == s[i];
    IndexOfFirst(s, k);
  }

  lemma SpanSplit(lo: char, a: nat, b: nat)
    requires lo as int + a + b < 0xD800
    ensures Span(lo, a + b) == Span(lo, a) + Span((lo as int + a) as char, b)
  {
  }

  /** The pieces the adapters' charsets are written from. */
  const Digits := Span('0', 10)
  const LowerLetters := Span('a', 26)
  const UpperLetters := Span('A', 26)

  /** The pieces spelled out. */
  lemma DigitsAre()
    ensures Digits == "0123456789"
  {
  }

  lemma LowerHalves()
    ensures Span('a', 13) == "abcdefghijklm" && Span('n', 13) == "nopqrstuvwxyz"
  {
  }

  lemma UpperHalves()
    ensures Span('A', 13) == "ABCDEFGHIJKLM" && Span('N', 13) == "NOPQRSTUVWXYZ"
  {
  }

  lemma LettersAre()
    ensures LowerLetters == "abcdefghijklmnopqrstuvwxyz"
    ensures UpperLetters == "ABCDEFGHIJKLMNOPQRSTUVWXYZ"
  {
    SpanSplit('a', 13, 13);
    LowerHalves();
    SpanSplit('A', 13, 13);
    UpperHalves();
  }

  /** Which characters the pieces hold. */
  lemma PiecesHave(x: char)
    ensures x in Digits <==> '0' <= x <= '9'
    ensures x in LowerLetters <==> 'a' <= x <= 'z'
    ensures x in UpperLetters <==> 'A' <= x <= 'Z'
  {
    SpanHas('0', 10, x);
    SpanHas('a', 26, x);
    SpanHas('A', 26, x);
  }

  predicate InCharset(cs: string, s: string) {
    forall i :: 0 <= i < |s| ==> s[i] in cs
  }

  predicate AllLast(cs: string, s: string)
    requires |cs| > 0
  {
    forall i :: 0 <= i < |s| ==> s[i] == cs[|cs| - 1]
  }

  predicate Distinct(cs: string) {
    forall i, j :: 0 <= i < j < |cs| ==> cs[i] != cs[j]
  }

  function Repeat(c: char, n: nat): (r: string)
    ensures |r| == n && forall i :: 0 <= i < n ==> r[i] == c
  {
    if n == 0 then [] else Repeat(c, n - 1) + [c]
  }

  /** Ruby's `String#index` / Python's `str.index` for one character: the
      first position holding `c`, or None (Ruby returns nil, Python raises). */
  function IndexOf(cs: string, c: char): (r: Option<nat>)
    ensures r.Some? ==> r.value < |cs| && cs[r.value] == c && c !in cs[..r.value]
    ensures r.None? <==> c !in cs
  {
    if |cs| == 0 then None
    else if cs[0] == c then Some(0)
    else
      match IndexOf(cs[1..], c)
      case None => None
      case Some(i) =>
        assert cs[..i + 1] == [cs[0]] + cs[1..][..i];
        Some(i + 1)
  }

  /** The first occurrence of a symbol is where `index` finds it. */
  lemma IndexOfFirst(cs: string, k: nat)
    requires k < |cs| && cs[k] !in cs[..k]
    ensures IndexOf(cs, cs[k]) == Some(k)
  {
  }

  /** `index` in a concatenation: found in the first part, or in the second
      part shifted by the length of the first. */
  lemma IndexOfConcat(a: string, b: string, c: char)
    ensures IndexOf(a + b, c) ==
      if c in a then IndexOf(a, c)
      else match IndexOf(b, c)
        case None => None
        case Some(j) => Some(|a| + j)
  {
    var ab := a + b;
    if c in a {
      var i := IndexOf(a, c).value;
      assert ab[..i] == a[..i];
      IndexOfFirst(ab, i);
    } else if c in b {
      var j := IndexOf(b, c).value;
      assert ab[..|a| + j] == a + b[..j];
      IndexOfFirst(ab, |a| + j);
    }
  }

  /** `index` past a prefix that does not hold the symbol. */
  lemma IndexAfter(a: string, b: string, x: char)
    requires x !in a && x in b
    ensures IndexOf(a + b, x) == Some(|a| + IndexOf(b, x).value)
  {
    IndexOfConcat(a, b, x);
  }

  /** The index of a symbol in a string made of four pieces, by the first
      piece holding it. */
  lemma IndexInFirst(a: string, b: string, c: string, d: string, x: char)
    requires x in a
    ensures IndexOf(a + b + c + d, x) == IndexOf(a, x)
  {
    IndexOfConcat(a, b, x);
    IndexOfConcat(a + b, c, x);
    IndexOfConcat(a + b + c, d, x);
  }

  lemma IndexInSecond(a: string, b: string, c: string, d: string, x: char)
    requires x !in a && x in b
    ensures IndexOf(a + b + c + d, x) == Some(|a| + IndexOf(b, x).value)
  {
    IndexOfConcat(a, b, x);
    IndexOfConcat(a + b, c, x);
    IndexOfConcat(a + b + c, d, x);
  }

  lemma IndexInThird(a: string, b: string, c: string, d: string, x: char)
    requires x !in a && x !in b && x in c
    ensures IndexOf(a + b + c + d, x) == Some(|a| + |b| + IndexOf(c, x).value)
  {
    IndexOfConcat(a + b, c, x);
    IndexOfConcat(a + b + c, d, x);
  }

  lemma IndexInFourth(a: string, b: string, c: string, d: string, x: char)
    requires x !in a && x !in b && x !in c && x in d
    ensures IndexOf(a + b + c + d, x) == Some(|a| + |b| + |c| + IndexOf(d, x).value)
  {
    var abc := a + b + c;
    assert x !in abc;
    IndexAfter(abc, d, x);
  }

  /** The successor of `code` in the code space of `cs`, as a right-to-left
      carry: the last character wraps to cs[0] and carries when it is the last
      symbol, otherwise it becomes its charset successor; a carry out of the
      leftmost position prepends cs[0].  None when the bumped character is not
      in the charset (Ruby's `nil + 1`, Python's ValueError). */
  function Next(cs: string, code: string): Option<string>
    requires |cs| > 0
    decreases |code|
  {
    if |code| == 0 then Some([cs[0]])
    else
      var i := |code| - 1;
      if code[i] == cs[|cs| - 1] then
        match Next(cs, code[..i])
        case None => None
        case Some(p) => Some(p + [cs[0]])
      else
        match IndexOf(cs, code[i])
        case None => None
        case Some(k) => Some(code[..i] + [cs[k + 1]])
  }

  function Append(o: Option<string>, s: string): Option<string> {
    match o
    case None => None
    case Some(p) => Some(p + s)
  }

  /** A suffix made of the last symbol only is rewritten to cs[0] and the carry
      goes on into the prefix. */
  lemma {:induction false} NextCarries(cs: string, code: string, k: nat)
    requires |cs| > 0 && k <= |code|
    requires AllLast(cs, code[k..])
    ensures Next(cs, code) == Append(Next(cs, code[..k]), Repeat(cs[0], |code| - k))
    decreases |code| - k
  {
    if k == |code| {
      assert code[..k] == code;
      assert Repeat(cs[0], 0) == [];
      match Next(cs, code) {
        case None =>
        case Some(p) => assert p + [] == p;
      }
    } else {
      var i := |code| - 1;
      assert code[i] == code[k..][i - k];
      assert code[..i][..k] == code[..k];
      assert code[..i][k..] == code[k..][..|code| - 1 - k];
      NextCarries(cs, code[..i], k);
      match Next(cs, code[..k]) {
        case None =>
        case Some(p) =>
          assert p + Repeat(cs[0], |code| - k) == (p + Repeat(cs[0], i - k)) + [cs[0]];
      }
    }
  }

  /** The rightmost position holding a non-last symbol is bumped to its
      charset successor, everything right of it becomes cs[0], everything left
      of it is kept, and the length is unchanged. */
  lemma NextBumps(cs: string, code: string, k: nat)
    requires |cs| > 0 && k < |code|
    requires code[k] != cs[|cs| - 1] && code[k] in cs
    requires AllLast(cs, code[k + 1..])
    ensures IndexOf(cs, code[k]).Some? && IndexOf(cs, code[k]).value + 1 < |cs|
    ensures Next(cs, code) == Some(code[..k] + [cs[IndexOf(cs, code[k]).value + 1]] + Repeat(cs[0], |code| - k - 1))
  {
    NextCarries(cs, code, k + 1);
    var p := code[..k + 1];
    assert p[..k] == code[..k] && p[k] == code[k];
  }

  /** The rightmost non-last symbol is not in the charset: the successor is
      undefined (the source raises). */
  lemma NextFails(cs: string, code: string, k: nat)
    requires |cs| > 0 && k < |code|
    requires code[k] != cs[|cs| - 1] && code[k] !in cs
    requires AllLast(cs, code[k + 1..])
    ensures Next(cs, code) == None
  {
    NextCarries(cs, code, k + 1);
    assert code[..k + 1][k] == code[k];
  }

  /** Every symbol is the last one (the empty code included): the successor is
      cs[0] repeated one more time than the length. */
  lemma NextWraps(cs: string, code: string)
    requires |cs| > 0 && AllLast(cs, code)
    ensures Next(cs, code) == Some(Repeat(cs[0], |code| + 1))
  {
    NextCarries(cs, code, 0);
    assert code[0..] == code && code[..0] == [];
    assert [cs[0]] + Repeat(cs[0], |code|) == Repeat(cs[0], |code| + 1);
  }

  /** A one-symbol code that is not the last symbol steps to the next one. */
  lemma NextSingle(cs: string, c: char, k: nat)
    requires |cs| > 0 && c != cs[|cs| - 1] && IndexOf(cs, c) == Some(k)
    ensures k + 1 < |cs| && Next(cs, [c]) == Some([cs[k + 1]])
  {
    var code := [c];
    assert code[|code| - 1] == c;
    assert code[..0] + [cs[k + 1]] == [cs[k + 1]];
  }

  /** A two-symbol code ending in the last symbol carries into its first. */
  lemma NextCarryPair(cs: string, c: char, k: nat)
    requires |cs| > 0 && c != cs[|cs| - 1] && IndexOf(cs, c) == Some(k)
    ensures k + 1 < |cs| && Next(cs, [c, cs[|cs| - 1]]) == Some([cs[k + 1], cs[0]])
  {
    NextSingle(cs, c, k);
    var code := [c, cs[|cs| - 1]];
    assert code[..1] == [c] && code[|code| - 1] == cs[|cs| - 1];
    assert Next(cs, code) == Append(Next(cs, [c]), [cs[0]]);
    assert [cs[k + 1]] + [cs[0]] == [cs[k + 1], cs[0]];
  }

  /** The last symbol alone wraps to two first symbols. */
  lemma NextLastSingle(cs: string)
    requires |cs| > 0
    ensures Next(cs, [cs[|cs| - 1]]) == Some([cs[0], cs[0]])
  {
    var code := [cs[|cs| - 1]];
    assert AllLast(cs, code);
    NextWraps(cs, code);
    assert Repeat(cs[0], 2) == [cs[0], cs[0]];
  }

  /** `Base.advance`: walks `current` leftwards over a copy of the code,
      overwriting characters in place. */
  method Advance(cs: string, code: string) returns (r: Option<string>)
    requires |cs| > 0
    ensures r == Next(cs, code)
  {
    var c := code;
    var current := |c| - 1;
    while current >= 0
      invariant -1 <= current < |c| && |c| == |code|
      invariant c[..current + 1] == code[..current + 1]
      invariant forall j :: current < j < |c| ==> c[j] == cs[0]
      invariant AllLast(cs, code[current + 1..])
    {
      assert c[current] == code[..current + 1][current];
      if c[current] == cs[|cs| - 1] {
        c := c[current := cs[0]];
        assert AllLast(cs, code[current..]) by {
          forall i | 0 <= i < |code[current..]| ensures code[current..][i] == cs[|cs| - 1] {
            if i > 0 { assert code[current..][i] == code[current + 1..][i - 1]; }
          }
        }
        assert c[..current] == code[..current] by {
          assert c[..current] == c[..current + 1][..current];
        }
      } else {
        var k := IndexOf(cs, c[current]);
        if k.None? {
          NextFails(cs, code, current);
          return None;
        }
        NextBumps(cs, code, current);
        c := c[current := cs[k.value + 1]];
        assert c == code[..current] + [cs[k.value + 1]] + Repeat(cs[0], |code| - current - 1) by {
          assert c[..current] == code[..current + 1][..current];
        }
        return Some(c);
      }
      current := current - 1;
    }
    NextWraps(cs, code);
    assert [cs[0]] + c == Repeat(cs[0], |code| + 1);
    return Some([cs[0]] + c);
  }

  // ---------------------------------------------------------------------------
  // Shortlex order by charset index

  /** Position of a charset character (its first occurrence). */
  function Idx(cs: string, c: char): (i: nat)
    requires c in cs
    ensures i < |cs| && cs[i] == c
  {
    IndexOf(cs, c).value
  }

  /** The rank of a code in shortlex order by charset index (bijective base-n
      numeration): the empty code is 0, and appending symbol number i to a
      code of rank r gives n * r + 1 + i. */
  function Rank(cs: string, s: string): nat
    requires InCharset(cs, s)
    decreases |s|
  {
    if |s| == 0 then 0
    else
      assert InCharset(cs, s[..|s| - 1]);
      |cs| * Rank(cs, s[..|s| - 1]) + 1 + Idx(cs, s[|s| - 1])
  }

  /** Number of codes shorter than `len`. */
  function Shorter(n: nat, len: nat): nat {
    if len == 0 then 0 else n * Shorter(n, len - 1) + 1
  }

  /** Codes of one length occupy one block of ranks, above every shorter code:
      the order `Rank` induces is shortlex. */
  lemma {:induction false} RankIsShortlex(cs: string, s: string)
    requires InCharset(cs, s)
    ensures Shorter(|cs|, |s|) <= Rank(cs, s) < Shorter(|cs|, |s| + 1)
    decreases |s|
  {
    if |s| > 0 {
      var p := s[..|s| - 1];
      assert InCharset(cs, p);
      RankIsShortlex(cs, p);
      ShortlexStep(|cs|, Shorter(|cs|, |p|), Shorter(|cs|, |s|), Rank(cs, p), Idx(cs, s[|s| - 1]));
    }
  }

  lemma ShortlexStep(n: nat, lo: nat, hi: nat, r: nat, i: nat)
    requires lo <= r < hi && i < n
    ensures n * lo + 1 <= n * r + 1 + i < n * hi + 1
  {
    MulMono(n, lo, r);
    MulMono(n, r + 1, hi);
  }

  lemma MulMono(n: nat, a: nat, b: nat)
    requires a <= b
    ensures n * a <= n * b
  {
  }

  lemma RankSnoc(cs: string, s: string, c: char)
    requires InCharset(cs, s) && c in cs
    ensures InCharset(cs, s + [c])
    ensures Rank(cs, s + [c]) == |cs| * Rank(cs, s) + 1 + Idx(cs, c)
  {
    var t := s + [c];
    assert t[..|t| - 1] == s && t[|t| - 1] == c;
  }

  /** Different codes over a charset without repeated symbols have different
      ranks. */
  lemma {:induction false} RankInjective(cs: string, a: string, b: string)
    requires Distinct(cs) && InCharset(cs, a) && InCharset(cs, b)
    requires Rank(cs, a) == Rank(cs, b)
    ensures a == b
    decreases |a|
  {
    if |a| > 0 && |b| > 0 {
      var pa, pb := a[..|a| - 1], b[..|b| - 1];
      assert InCharset(cs, pa) && InCharset(cs, pb);
      var ia, ib := Idx(cs, a[|a| - 1]), Idx(cs, b[|b| - 1]);
      var n := |cs|;
      DivUnique(n, Rank(cs, pa), ia, Rank(cs, pb), ib);
      RankInjective(cs, pa, pb);
      assert a == pa + [cs[ia]] && b == pb + [cs[ib]];
    }
  }

  lemma DivUnique(n: nat, q1: nat, r1: nat, q2: nat, r2: nat)
    requires r1 < n && r2 < n && n * q1 + r1 == n * q2 + r2
    ensures q1 == q2 && r1 == r2
  {
    if q1 < q2 {
      MulMono(n, q1 + 1, q2);
    } else if q2 < q1 {
      MulMono(n, q2 + 1, q1);
    }
  }

  lemma IdxDistinct(cs: string, k: nat)
    requires Distinct(cs) && k < |cs|
    ensures Idx(cs, cs[k]) == k
  {
  }

  /** For a code over the charset the successor exists, stays over the
      charset, and grows by one symbol exactly when every symbol wrapped. */
  lemma {:induction false} NextWellFormed(cs: string, code: string)
    requires |cs| > 0 && InCharset(cs, code)
    ensures Next(cs, code).Some?
    ensures InCharset(cs, Next(cs, code).value)
    ensures |Next(cs, code).value| == if AllLast(cs, code) then |code| + 1 else |code|
    decreases |code|
  {
    if |code| > 0 {
      var i := |code| - 1;
      var p := code[..i];
      assert InCharset(cs, p);
      NextWellFormed(cs, p);
      if code[i] == cs[|cs| - 1] {
        assert AllLast(cs, code) <==> AllLast(cs, p) by {
          if AllLast(cs, p) {
            forall j | 0 <= j < |code| ensures code[j] == cs[|cs| - 1] {
              if j < i { assert code[j] == p[j]; }
            }
          }
        }
      } else {
        assert !AllLast(cs, code);
      }
    }
  }

  /** The successor is the next code in shortlex order: its rank is one more.
      Together with `RankInjective` this makes repeated advancing enumerate
      distinct, increasing codes. */
  lemma {:induction false} NextIncrementsRank(cs: string, code: string)
    requires Distinct(cs) && |cs| > 0 && InCharset(cs, code)
    ensures Next(cs, code).Some? && InCharset(cs, Next(cs, code).value)
    ensures Rank(cs, Next(cs, code).value) == Rank(cs, code) + 1
    decreases |code|
  {
    NextWellFormed(cs, code);
    IdxDistinct(cs, 0);
    if |code| == 0 {
      RankSnoc(cs, [], cs[0]);
      assert [] + [cs[0]] == [cs[0]];
    } else {
      var i := |code| - 1;
      var p := code[..i];
      assert InCharset(cs, p);
      assert code == p + [code[i]];
      if code[i] == cs[|cs| - 1] {
        NextIncrementsRank(cs, p);
        CarryRank(cs, p, code);
      } else {
        BumpRank(cs, p, code);
      }
    }
  }

  lemma CarryRank(cs: string, p: string, code: string)
    requires Distinct(cs) && |cs| > 0 && InCharset(cs, p)
    requires code == p + [cs[|cs| - 1]]
    requires Next(cs, p).Some? && InCharset(cs, Next(cs, p).value)
    requires Rank(cs, Next(cs, p).value) == Rank(cs, p) + 1
    ensures Next(cs, code).Some? && InCharset(cs, Next(cs, code).value)
    ensures Rank(cs, Next(cs, code).value) == Rank(cs, code) + 1
  {
    var n := |cs|;
    var q := Next(cs, p).value;
    assert code[..|code| - 1] == p;
    assert Next(cs, code) == Some(q + [cs[0]]);
    RankSnoc(cs, p, cs[n - 1]);
    RankSnoc(cs, q, cs[0]);
    IdxDistinct(cs, 0);
    IdxDistinct(cs, n - 1);
    Distribute(n, Rank(cs, p));
  }

  lemma BumpRank(cs: string, p: string, code: string)
    requires Distinct(cs) && |cs| > 0 && InCharset(cs, code)
    requires |code| > 0 && p == code[..|code| - 1] && code[|code| - 1] != cs[|cs| - 1]
    ensures Next(cs, code).Some? && InCharset(cs, Next(cs, code).value)
    ensures Rank(cs, Next(cs, code).value) == Rank(cs, code) + 1
  {
    var c := code[|code| - 1];
    assert InCharset(cs, p);
    var k := IndexOf(cs, c).value;
    assert k + 1 < |cs|;
    var r := p + [cs[k + 1]];
    assert Next(cs, code) == Some(r);
    assert code == p + [c];
    RankSnoc(cs, p, c);
    RankSnoc(cs, p, cs[k + 1]);
    IdxDistinct(cs, k + 1);
  }

  lemma Distribute(n: nat, a: nat)
    ensures n * (a + 1) == n * a + n
  {
  }
}
