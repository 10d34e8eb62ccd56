/** src/shorturl.c and src/shorturl.h: the code order of the C tools, and the
    `code|url` line format they read. */
module ShortUrl {
  import opened Wrappers

  /** A byte of a C string; `gchar` is signed, see `Signed`. */
  type Byte = b: int | 0 <= b < 256

  const MaxCodeLength := 6
  const Bar: Byte := 124
  const Newline: Byte := 10

  /** The value a `gchar` holds: bytes 128 to 255 are negative. */
  function Signed(b: Byte): int {
    if b >= 128 then b - 256 else b
  }

  predicate IsDigit(b: Byte) { 48 <= b <= 57 }
  predicate IsLower(b: Byte) { 97 <= b <= 122 }
  predicate IsUpper(b: Byte) { 65 <= b <= 90 }

  /** A `gboolean` of the `g_ascii_is*` tests as an integer. */
  function Flag(p: bool): int {
    if p then 1 else 0
  }

  /** One pass of the loop body of `compare_codes` at a position holding `x`
      in `a` and `y` in `b`, all six tests as written; 0 means "go on". */
  function Step(x: Byte, y: Byte): int {
    var d1 := Flag(IsDigit(y)) - Flag(IsDigit(x));
    if d1 != 0 then d1 else
    var d2 := Signed(x) - Signed(y);
    if d2 != 0 then d2 else
    var d3 := Flag(IsLower(y)) - Flag(IsLower(x));
    if d3 != 0 then d3 else
    var d4 := Signed(x) - Signed(y);
    if d4 != 0 then d4 else
    var d5 := Flag(IsUpper(y)) - Flag(IsUpper(x));
    if d5 != 0 then d5 else
    Signed(x) - Signed(y)
  }

  /** The order one position imposes: digits first, then by signed value. */
  function Key(x: Byte): int {
    (if IsDigit(x) then 0 else 256) + Signed(x)
  }

  /** A step decides by the digit test and then by the signed byte
      difference; the lowercase and uppercase tests never decide, because
      the byte difference has already returned whenever the bytes differ. */
  lemma StepDecides(x: Byte, y: Byte)
    ensures IsDigit(x) != IsDigit(y) ==> Step(x, y) == Flag(IsDigit(y)) - Flag(IsDigit(x))
    ensures IsDigit(x) == IsDigit(y) ==> Step(x, y) == Signed(x) - Signed(y)
    ensures Step(x, y) == 0 <==> x == y
    ensures Step(x, y) < 0 <==> Key(x) < Key(y)
    ensures Step(x, y) == -Step(y, x)
  {
  }

  /** The loop of `compare_codes` from position `i` on, for codes of equal
      length: the first position whose step is not 0 decides. */
  function CompareFrom(a: seq<Byte>, b: seq<Byte>, i: nat): (r: int)
    requires |a| == |b| && i <= |a|
    ensures r == 0 <==> a[i..] == b[i..]
    decreases |a| - i
  {
    if i == |a| then 0
    else
      StepDecides(a[i], b[i]);
      var d := Step(a[i], b[i]);
      if d != 0 then d
      else
        assert a[i..] == [a[i]] + a[i + 1..] && b[i..] == [b[i]] + b[i + 1..];
        CompareFrom(a, b, i + 1)
  }

  /** `compare_codes`: a shorter code orders first, by the difference of the
      lengths; codes of one length are compared position by position. */
  function CompareCodes(a: seq<Byte>, b: seq<Byte>): (r: int)
    ensures |a| != |b| ==> r == |a| - |b|
    ensures |a| == |b| ==> (r == 0 <==> a == b)
  {
    if |a| != |b| then |a| - |b| else CompareFrom(a, b, 0)
  }

  /** The first position where two codes of one length differ decides, by the
      step there. */
  lemma {:induction false} CompareFromFirstDifference(a: seq<Byte>, b: seq<Byte>, i: nat, k: nat)
    requires |a| == |b| && i <= k < |a|
    requires a[i..k] == b[i..k] && a[k] != b[k]
    ensures CompareFrom(a, b, i) == Step(a[k], b[k])
    decreases k - i
  {
    StepDecides(a[i], b[i]);
    if i < k {
      assert a[i] == a[i..k][0] == b[i..k][0] == b[i];
      assert a[i + 1..k] == a[i..k][1..] && b[i + 1..k] == b[i..k][1..];
      CompareFromFirstDifference(a, b, i + 1, k);
    }
  }

  lemma CompareFirstDifference(a: seq<Byte>, b: seq<Byte>, k: nat)
    requires |a| == |b| && k < |a| && a[..k] == b[..k] && a[k] != b[k]
    ensures CompareCodes(a, b) == Step(a[k], b[k])
    ensures IsDigit(a[k]) && !IsDigit(b[k]) ==> CompareCodes(a, b) < 0
  {
    assert a[0..k] == a[..k] && b[0..k] == b[..k];
    CompareFromFirstDifference(a, b, 0, k);
    StepDecides(a[k], b[k]);
  }

  lemma {:induction false} CompareFromAntisymmetric(a: seq<Byte>, b: seq<Byte>, i: nat)
    requires |a| == |b| && i <= |a|
    ensures CompareFrom(a, b, i) == -CompareFrom(b, a, i)
    decreases |a| - i
  {
    if i < |a| {
      StepDecides(a[i], b[i]);
      if Step(a[i], b[i]) == 0 {
        CompareFromAntisymmetric(a, b, i + 1);
      }
    }
  }

  /** Swapping the codes negates the result. */
  lemma CompareAntisymmetric(a: seq<Byte>, b: seq<Byte>)
    ensures CompareCodes(a, b) == -CompareCodes(b, a)
  {
    if |a| == |b| {
      CompareFromAntisymmetric(a, b, 0);
    }
  }

  /** Transitivity of the loop's verdict. */
  lemma {:induction false} CompareFromTransitive(a: seq<Byte>, b: seq<Byte>, c: seq<Byte>, i: nat)
    requires |a| == |b| == |c| && i <= |a|
    requires CompareFrom(a, b, i) <= 0 && CompareFrom(b, c, i) <= 0
    ensures CompareFrom(a, c, i) <= 0
    decreases |a| - i
  {
    if i < |a| {
      StepDecides(a[i], b[i]);
      StepDecides(b[i], c[i]);
      StepDecides(a[i], c[i]);
      if Step(a[i], b[i]) == 0 && Step(b[i], c[i]) == 0 {
        CompareFromTransitive(a, b, c, i + 1);
      }
    }
  }

  /** `compare_codes` is a total order: antisymmetric (`CompareAntisymmetric`),
      0 only on equal codes (a contract of `CompareCodes`), and transitive. */
  lemma CompareTransitive(a: seq<Byte>, b: seq<Byte>, c: seq<Byte>)
    requires CompareCodes(a, b) <= 0 && CompareCodes(b, c) <= 0
    ensures CompareCodes(a, c) <= 0
  {
    if |a| == |b| == |c| {
      CompareFromTransitive(a, b, c, 0);
    }
  }

  /** The empty code orders before every code, so it never fails the order
      check against a first line. */
  lemma EmptyFirst(b: seq<Byte>)
    ensures CompareCodes([], b) <= 0
  {
  }

  /** A record of the C tools. */
  datatype Record = Record(code: seq<Byte>, url: seq<Byte>)

  /** `compare_shorturls`: the order of records. */
  function CompareShortUrls(x: Record, y: Record): int {
    CompareCodes(x.code, y.code)
  }

  /** Records are ordered by their codes alone: the urls never matter. */
  lemma UrlsIgnored(x: Record, y: Record, u: seq<Byte>, v: seq<Byte>)
    ensures CompareShortUrls(x, y) == CompareShortUrls(x.(url := u), y.(url := v))
  {
  }

  // ---------------------------------------------------------------------------
  // The line format shared by verify.c and sort.c

  /** What the C string functions see of a line: the bytes before a NUL. */
  function CString(s: seq<Byte>): (r: seq<Byte>)
    ensures 0 !in r && |r| <= |s| && r == s[..|r|]
  {
    if |s| == 0 || s[0] == 0 then [] else [s[0]] + CString(s[1..])
  }

  function Before(s: seq<Byte>, x: Byte): (r: seq<Byte>)
    ensures x !in r && |r| <= |s| && r == s[..|r|]
    ensures |r| < |s| ==> s[|r|] == x
  {
    if |s| == 0 || s[0] == x then [] else [s[0]] + Before(s[1..], x)
  }

  /** `g_strsplit(str, "|", 2)` yields two pieces exactly when there is a "|":
      the code before the first one and the rest after it. */
  function Split(line: seq<Byte>): (r: Option<(seq<Byte>, seq<Byte>)>)
    ensures r.None? <==> Bar !in CString(line)
    ensures r.Some? ==> CString(line) == r.value.0 + [Bar] + r.value.1 && Bar !in r.value.0
  {
    var s := CString(line);
    var code := Before(s, Bar);
    if |code| == |s| then None
    else
      assert s == code + [Bar] + s[|code| + 1..];
      Some((code, s[|code| + 1..]))
  }

  lemma {:induction false} CStringWhole(s: seq<Byte>)
    requires 0 !in s
    ensures CString(s) == s
  {
    if |s| > 0 {
      assert 0 !in s[1..];
      CStringWhole(s[1..]);
    }
  }

  lemma {:induction false} BeforeJoined(code: seq<Byte>, rest: seq<Byte>)
    requires Bar !in code
    ensures Before(code + [Bar] + rest, Bar) == code
  {
    if |code| > 0 {
      assert (code + [Bar] + rest)[1..] == code[1..] + [Bar] + rest;
      BeforeJoined(code[1..], rest);
    }
  }

  /** Splitting a line made of a code, "|" and a rest gives back the code and
      the rest. */
  lemma SplitJoined(code: seq<Byte>, rest: seq<Byte>)
    requires Bar !in code && 0 !in code && 0 !in rest
    ensures Split(code + [Bar] + rest) == Some((code, rest))
  {
    var line := code + [Bar] + rest;
    assert 0 !in line;
    CStringWhole(line);
    BeforeJoined(code, rest);
    assert line[|code| + 1..] == rest;
  }

  /** The code of a line, None when it has no "|" or a code longer than
      MAX_CODE_LENGTH (the PARSE error). */
  function LineCode(line: seq<Byte>): (r: Option<seq<Byte>>)
    ensures r.None? <==> Split(line).None? || |Split(line).value.0| > MaxCodeLength
    ensures r.Some? ==> r.value == Split(line).value.0 && |r.value| <= MaxCodeLength
  {
    match Split(line)
    case None => None
    case Some((code, _)) => if |code| > MaxCodeLength then None else Some(code)
  }

  // ---------------------------------------------------------------------------
  // The seven-byte code buffers (`gchar code[MAX_CODE_LENGTH + 1]`)

  function Zeros(n: nat): (r: seq<Byte>)
    ensures |r| == n && forall i :: 0 <= i < n ==> r[i] == 0
  {
    seq(n, i => 0)
  }

  /** The buffer after `strncpy(buffer, code, MAX_CODE_LENGTH)` as verify.c
      and sort.c write it: the code, NUL padding up to six bytes, and byte 6
      left as it was (`stale`). */
  function CopyAsWritten(code: seq<Byte>, stale: Byte): (r: seq<Byte>)
    requires |code| <= MaxCodeLength
    ensures |r| == MaxCodeLength + 1 && r[..|code|] == code && r[MaxCodeLength] == stale
  {
    code + Zeros(MaxCodeLength - |code|) + [stale]
  }

  /** A copy of the whole code with its terminator, as `g_strlcpy(..,
      MAX_CODE_LENGTH + 1)` in sort.c writes it. */
  function Copy(code: seq<Byte>): (r: seq<Byte>)
    requires |code| <= MaxCodeLength
    ensures |r| == MaxCodeLength + 1 && r[..|code|] == code && r[MaxCodeLength] == 0
  {
    code + Zeros(MaxCodeLength + 1 - |code|)
  }

  /** The C string a buffer holds; None when no NUL ends it inside the buffer,
      so that reading it runs past the array. */
  function ReadBuffer(buffer: seq<Byte>): (r: Option<seq<Byte>>)
    ensures r.None? <==> 0 !in buffer
    ensures r.Some? ==> r.value == CString(buffer)
  {
    if 0 in buffer then Some(CString(buffer)) else None
  }

  lemma ReadBack(code: seq<Byte>, rest: seq<Byte>)
    requires 0 !in code && |rest| > 0 && rest[0] == 0
    ensures CString(code + rest) == code
    decreases |code|
  {
    if |code| > 0 {
      assert (code + rest)[1..] == code[1..] + rest;
      ReadBack(code[1..], rest);
    }
  }

  /** A code of six bytes copied as written is not terminated: with a stale
      non-NUL byte 6 the code cannot be read back. */
  lemma SixByteCodeUnterminated(code: seq<Byte>, stale: Byte)
    requires |code| == MaxCodeLength && 0 !in code && stale != 0
    ensures ReadBuffer(CopyAsWritten(code, stale)).None?
  {
    var r := CopyAsWritten(code, stale);
    assert r == code + [stale];
    assert forall i :: 0 <= i < |r| ==> r[i] != 0 by {
      forall i | 0 <= i < |r| ensures r[i] != 0 {
        if i < |code| { assert r[i] == code[i]; }
      }
    }
  }

  /** Shorter codes copied as written read back, whatever byte 6 held. */
  lemma ShortCodeReadsBack(code: seq<Byte>, stale: Byte)
    requires |code| < MaxCodeLength && 0 !in code
    ensures ReadBuffer(CopyAsWritten(code, stale)) == Some(code)
  {
    var rest := Zeros(MaxCodeLength - |code|) + [stale];
    assert CopyAsWritten(code, stale) == code + rest;
    ReadBack(code, rest);
  }

  /** With the terminator every code of up to six bytes reads back; the rest
      of the model keeps each code whole, as this copy does. */
  lemma CopyReadsBack(code: seq<Byte>)
    requires |code| <= MaxCodeLength && 0 !in code
    ensures ReadBuffer(Copy(code)) == Some(code)
  {
    ReadBack(code, Zeros(MaxCodeLength + 1 - |code|));
  }
}
