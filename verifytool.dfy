/** src/verify.c: the tool that checks a `code|url` file is in code order. */
module VerifyTool {
  import opened Wrappers
  import opened ShortUrl

  /** Why `verify_file` stopped, with the index of the offending line. */
  datatype Failure =
    | Parse(line: nat)     // no "|" or a code longer than MAX_CODE_LENGTH
    | Unsorted(line: nat)  // the code orders before the previous line's code

  /** The code of every line, None for a line that does not parse. */
  function Codes(lines: seq<seq<Byte>>): (r: seq<Option<seq<Byte>>>)
    ensures |r| == |lines| && forall i :: 0 <= i < |lines| ==> r[i] == LineCode(lines[i])
  {
    seq(|lines|, i requires 0 <= i < |lines| => LineCode(lines[i]))
  }

  /** The first `n` codes are all present and never go down. */
  predicate InOrderUpTo(codes: seq<Option<seq<Byte>>>, n: nat)
    requires n <= |codes|
  {
    && (forall i :: 0 <= i < n ==> codes[i].Some?)
    && (forall i :: 0 < i < n ==> CompareCodes(codes[i - 1].value, codes[i].value) <= 0)
  }

  /** The file `verify_file` accepts. */
  predicate Accepted(lines: seq<seq<Byte>>) {
    InOrderUpTo(Codes(lines), |lines|)
  }

  /** `f` is the failure the first bad line produces, given the lines' codes. */
  predicate Explains(codes: seq<Option<seq<Byte>>>, f: Failure) {
    match f
    case Parse(k) =>
      k < |codes| && InOrderUpTo(codes, k) && codes[k].None?
    case Unsorted(k) =>
      && 0 < k < |codes| && InOrderUpTo(codes, k) && codes[k].Some?
      && CompareCodes(codes[k - 1].value, codes[k].value) > 0
  }

  /** `verify_file`: reads the lines in turn, keeping the last code (initially
      empty), and stops at the first line that does not parse or whose code
      orders before the last one. */
  method VerifyFile(lines: seq<seq<Byte>>) returns (failure: Option<Failure>)
    ensures failure.None? <==> Accepted(lines)
    ensures failure.Some? ==> Explains(Codes(lines), failure.value)
  {
    ghost var codes := Codes(lines);
    var last: seq<Byte> := [];
    var i := 0;
    while i < |lines|
      invariant 0 <= i <= |lines|
      invariant InOrderUpTo(codes, i)
      invariant i == 0 ==> last == []
      invariant 0 < i ==> codes[i - 1] == Some(last)
    {
      var code := LineCode(lines[i]);
      assert code == codes[i];
      if code.None? {
        ParseFailure(codes, i);
        return Some(Parse(i));
      }
      if CompareCodes(last, code.value) > 0 {
        EmptyFirst(code.value);
        UnsortedFailure(codes, i);
        return Some(Unsorted(i));
      }
      InOrderExtends(codes, i);
      last := code.value;
      i := i + 1;
    }
    failure := None;
  }

  lemma InOrderExtends(codes: seq<Option<seq<Byte>>>, n: nat)
    requires n < |codes| && InOrderUpTo(codes, n) && codes[n].Some?
    requires 0 < n ==> CompareCodes(codes[n - 1].value, codes[n].value) <= 0
    ensures InOrderUpTo(codes, n + 1)
  {
  }

  lemma ParseFailure(codes: seq<Option<seq<Byte>>>, n: nat)
    requires n < |codes| && InOrderUpTo(codes, n) && codes[n].None?
    ensures Explains(codes, Parse(n)) && !InOrderUpTo(codes, |codes|)
  {
  }

  lemma UnsortedFailure(codes: seq<Option<seq<Byte>>>, n: nat)
    requires 0 < n < |codes| && InOrderUpTo(codes, n) && codes[n].Some?
    requires CompareCodes(codes[n - 1].value, codes[n].value) > 0
    ensures Explains(codes, Unsorted(n)) && !InOrderUpTo(codes, |codes|)
  {
  }

  /** `main` of verify: 2 on a wrong argument count, 1 when the in-file does
      not exist, cannot be opened or fails verification, 0 otherwise. */
  method Run(argc: int, inExists: bool, opens: bool, lines: seq<seq<Byte>>) returns (status: int)
    ensures status == 2 <==> argc != 2
    ensures status == 0 <==> argc == 2 && inExists && opens && Accepted(lines)
    ensures 0 <= status <= 2
  {
    if argc != 2 {
      return 2;
    }
    if !inExists || !opens {
      return 1;
    }
    var failure := VerifyFile(lines);
    status := if failure.Some? then 1 else 0;
  }
}
