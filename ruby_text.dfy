/** The Ruby string operations the adapters and the line tools rely on, with
    Ruby's own edge cases: `split` drops trailing empty fields, `chomp("\n")`
    also removes "\r\n" and "\r", `^` and `$` are line anchors. */
module RubyText {
  import opened Wrappers

  function LowerChar(c: char): char {
    if 'A' <= c <= 'Z' then (c as int + 32) as char else c
  }

  /** `String#downcase` on ASCII letters. */
  function Downcase(s: string): (r: string)
    ensures |r| == |s| && forall i :: 0 <= i < |s| ==> r[i] == LowerChar(s[i])
  {
    if |s| == 0 then [] else [LowerChar(s[0])] + Downcase(s[1..])
  }

  /** Lowercasing adds no character other than a lowercase letter. */
  lemma DowncaseKeeps(s: string, x: char)
    requires x !in s && !('a' <= x <= 'z')
    ensures x !in Downcase(s)
  {
  }

  /** `s.split(c).first.to_s`: the text before the first `c` (the whole string
      when there is none). */
  function BeforeFirst(s: string, c: char): string {
    if |s| == 0 || s[0] == c then [] else [s[0]] + BeforeFirst(s[1..], c)
  }

  /** The text before the first `c` is the prefix that stops at it. */
  lemma BeforeFirstPrefix(s: string, c: char)
    ensures c !in BeforeFirst(s, c) && |BeforeFirst(s, c)| <= |s| && BeforeFirst(s, c) == s[..|BeforeFirst(s, c)|]
    ensures |BeforeFirst(s, c)| < |s| ==> s[|BeforeFirst(s, c)|] == c
  {
  }

  lemma BeforeFirstAbsent(s: string, c: char)
    requires c !in s
    ensures BeforeFirst(s, c) == s
  {
  }

  /** The text after the first `c`; None when there is no `c`. */
  function AfterFirst(s: string, c: char): (r: Option<string>)
    ensures r.None? <==> c !in s
    ensures r.Some? ==> s == BeforeFirst(s, c) + [c] + r.value
  {
    if |s| == 0 then None
    else if s[0] == c then Some(s[1..])
    else match AfterFirst(s[1..], c)
      case None => None
      case Some(t) => Some(t)
  }

  /** `s.tr(c, "")`: every `c` deleted. */
  function Delete(s: string, c: char): string {
    if |s| == 0 then [] else (if s[0] == c then [] else [s[0]]) + Delete(s[1..], c)
  }

  /** No `c` is left. */
  lemma DeleteRemoves(s: string, c: char)
    ensures c !in Delete(s, c)
  {
  }

  /** Deleting adds no character, and deleting an absent one changes nothing. */
  lemma DeleteKeeps(s: string, c: char, x: char)
    requires x !in s
    ensures x !in Delete(s, c)
    ensures c !in s ==> Delete(s, c) == s
  {
  }

  /** Deleting from a concatenation deletes from each part. */
  lemma {:induction false} DeleteAppend(a: string, b: string, c: char)
    ensures Delete(a + b, c) == Delete(a, c) + Delete(b, c)
  {
    if |a| > 0 {
      DeleteAppend(a[1..], b, c);
      assert (a + b)[1..] == a[1..] + b;
    } else {
      assert a + b == b;
    }
  }

  /** The fields of `s` between occurrences of `c`, empty fields included
      (Python's `str.split(c)`, Ruby's `split(c, -1)`). */
  function SplitOn(s: string, c: char): (r: seq<string>)
    ensures |r| >= 1 && forall i :: 0 <= i < |r| ==> c !in r[i]
  {
    if |s| == 0 then [""]
    else if s[0] == c then [""] + SplitOn(s[1..], c)
    else
      var t := SplitOn(s[1..], c);
      [[s[0]] + t[0]] + t[1..]
  }

  /** A string without the separator is a single field. */
  lemma {:induction false} SplitOnAbsent(s: string, c: char)
    requires c !in s
    ensures SplitOn(s, c) == [s]
  {
    if |s| > 0 {
      SplitOnAbsent(s[1..], c);
      assert [s[0]] + s[1..] == s;
    }
  }

  /** A field ended by the separator is followed by an empty field. */
  lemma {:induction false} SplitOnTerminated(s: string, c: char)
    requires c !in s
    ensures SplitOn(s + [c], c) == [s, ""]
  {
    if |s| == 0 {
      assert s + [c] == [c];
      assert [c][1..] == [];
    } else {
      SplitOnTerminated(s[1..], c);
      assert (s + [c])[1..] == s[1..] + [c];
      assert [s[0]] + s[1..] == s;
    }
  }

  /** The lines of `s` in the sense of Ruby's `^` and `$`. */
  function Lines(s: string): seq<string> {
    SplitOn(s, '\n')
  }

  /** The fields of `s` between occurrences of "\r\n", searched left to right. */
  function FieldsCrlf(s: string): (r: seq<string>)
    ensures |r| >= 1
    decreases |s|
  {
    if |s| == 0 then [""]
    else if |s| >= 2 && s[0] == '\r' && s[1] == '\n' then [""] + FieldsCrlf(s[2..])
    else
      var t := FieldsCrlf(s[1..]);
      [[s[0]] + t[0]] + t[1..]
  }

  function DropTrailingEmpty(fs: seq<string>): (r: seq<string>)
    ensures |r| <= |fs| && r == fs[..|r|]
    ensures |r| > 0 ==> r[|r| - 1] != ""
    ensures forall i :: |r| <= i < |fs| ==> fs[i] == ""
  {
    if |fs| == 0 then []
    else if fs[|fs| - 1] == "" then DropTrailingEmpty(fs[..|fs| - 1])
    else fs
  }

  /** `s.split("\r\n")`: trailing empty fields are removed, so "" gives []. */
  function SplitCrlf(s: string): seq<string> {
    DropTrailingEmpty(FieldsCrlf(s))
  }

  /** `headers.split("\r\n").shift`: the status line, nil for an empty block. */
  function StatusLine(block: string): (r: Option<string>)
    ensures r.None? <==> |SplitCrlf(block)| == 0
    ensures r.Some? ==> r.value == SplitCrlf(block)[0]
  {
    var hs := SplitCrlf(block);
    if |hs| == 0 then None else Some(hs[0])
  }

  /** The header lines left after the status line is shifted off. */
  function HeaderLines(block: string): (r: seq<string>)
    ensures |SplitCrlf(block)| > 0 ==> SplitCrlf(block) == [SplitCrlf(block)[0]] + r
    ensures |SplitCrlf(block)| == 0 ==> r == []
  {
    var hs := SplitCrlf(block);
    if |hs| == 0 then [] else hs[1..]
  }

  const LocationPrefix := "Location: "

  function StartsWith(s: string, p: string): bool {
    |p| <= |s| && s[..|p|] == p
  }

  /** The capture of `h.match(/^Location: (.*)$/)`: the rest of the first line
      of `h` that starts with "Location: ". */
  function LocationHeader(h: string): (r: Option<string>)
    ensures r.Some? ==> exists i :: FirstLocationAt(Lines(h), i) && r.value == Lines(h)[i][|LocationPrefix|..]
    ensures r.None? ==> forall l :: l in Lines(h) ==> !StartsWith(l, LocationPrefix)
  {
    FirstLocation(Lines(h))
  }

  /** Line `i` of `ls` starts with "Location: " and no line before it does. */
  predicate FirstLocationAt(ls: seq<string>, i: int) {
    && 0 <= i < |ls| && StartsWith(ls[i], LocationPrefix)
    && forall j :: 0 <= j < i ==> !StartsWith(ls[j], LocationPrefix)
  }

  function FirstLocation(ls: seq<string>): (r: Option<string>)
    ensures r.Some? ==> exists i :: FirstLocationAt(ls, i) && r.value == ls[i][|LocationPrefix|..]
    ensures r.None? ==> forall l :: l in ls ==> !StartsWith(l, LocationPrefix)
  {
    if |ls| == 0 then None
    else if StartsWith(ls[0], LocationPrefix) then Some(ls[0][|LocationPrefix|..])
    else FirstLocation(ls[1..])
  }

  /** Ruby's whitespace for `strip` (NUL included). */
  predicate IsSpace(c: char) {
    c == ' ' || c == '\t' || c == '\n' || c == '\U{B}' || c == '\U{C}' || c == '\r' || c == '\0'
  }

  function StripLeft(s: string): (r: string)
    ensures |r| <= |s| && r == s[|s| - |r|..]
    ensures |r| > 0 ==> !IsSpace(r[0])
    ensures forall i :: 0 <= i < |s| - |r| ==> IsSpace(s[i])
  {
    if |s| > 0 && IsSpace(s[0]) then StripLeft(s[1..]) else s
  }

  function StripRight(s: string): (r: string)
    ensures |r| <= |s| && r == s[..|r|]
    ensures |r| > 0 ==> !IsSpace(r[|r| - 1])
    ensures forall i :: |r| <= i < |s| ==> IsSpace(s[i])
  {
    if |s| > 0 && IsSpace(s[|s| - 1]) then StripRight(s[..|s| - 1]) else s
  }

  /** `String#strip`: `s` without the `k` spaces it starts with and the
      spaces it ends with; an all-space `s` gives "". */
  function Strip(s: string): (r: string)
    ensures |r| > 0 ==> !IsSpace(r[0]) && !IsSpace(r[|r| - 1])
    ensures var k := |s| - |StripLeft(s)|; k + |r| <= |s| && r == s[k..k + |r|]
    ensures forall i :: 0 <= i < |s| - |StripLeft(s)| ==> IsSpace(s[i])
    ensures forall i :: |s| - |StripLeft(s)| + |r| <= i < |s| ==> IsSpace(s[i])
  {
    var t := StripLeft(s);
    var r := StripRight(t);
    SpacesAfter(s, |s| - |t|, r);
    r
  }

  /** Where `s[k..]` is `r` followed by spaces, `r` sits at `k` in `s` with
      only spaces after it. */
  lemma SpacesAfter(s: string, k: nat, r: string)
    requires k <= |s| && |r| <= |s| - k && r == s[k..][..|r|]
    requires forall j :: |r| <= j < |s| - k ==> IsSpace(s[k..][j])
    ensures r == s[k..k + |r|]
    ensures forall i :: k + |r| <= i < |s| ==> IsSpace(s[i])
  {
    forall i | k + |r| <= i < |s| ensures IsSpace(s[i]) {
      assert s[i] == s[k..][i - k];
    }
  }

  /** `line.chomp!("\n")`: a one-character "\n" separator makes Ruby remove a
      trailing "\r\n", "\n" or "\r". */
  function Chomp(s: string): (r: string)
    ensures |s| - 2 <= |r| <= |s| && r == s[..|r|]
    ensures |r| < |s| ==> s[|r|] == '\r' || s[|r|] == '\n'
    ensures |s| >= 2 && s[|s| - 2..] == "\r\n" ==> r == s[..|s| - 2]
    ensures !(|s| >= 2 && s[|s| - 2..] == "\r\n") && |s| >= 1 && (s[|s| - 1] == '\n' || s[|s| - 1] == '\r')
            ==> r == s[..|s| - 1]
    ensures |s| == 0 || (s[|s| - 1] != '\n' && s[|s| - 1] != '\r') ==> r == s
  {
    if |s| >= 2 && s[|s| - 2..] == "\r\n" then s[..|s| - 2]
    else if |s| >= 1 && (s[|s| - 1] == '\n' || s[|s| - 1] == '\r') then s[..|s| - 1]
    else s
  }

  /** `line.split("|", 2)` on a non-empty line: the code and, when there is a
      "|", the url after the first one (nil otherwise). */
  function SplitRecord(line: string): (r: (string, Option<string>))
    ensures '|' !in r.0
    ensures r.1.None? <==> '|' !in line
    ensures r.1.Some? ==> line == r.0 + "|" + r.1.value
    ensures r.1.None? ==> r.0 == line
  {
    BeforeFirstPrefix(line, '|');
    (BeforeFirst(line, '|'), AfterFirst(line, '|'))
  }

  /** The text before the first `c` of `a + [c] + b`, where `a` holds no
      `c`, is `a`. */
  lemma {:induction false} BeforeFirstAt(a: string, b: string, c: char)
    requires c !in a
    ensures BeforeFirst(a + [c] + b, c) == a
  {
    if |a| > 0 {
      BeforeFirstAt(a[1..], b, c);
      assert (a + [c] + b)[1..] == a[1..] + [c] + b;
    }
  }

  /** A line made of a field without "|", "|" and a rest splits back into
      the two. */
  lemma SplitRecordOf(code: string, rest: string)
    requires '|' !in code
    ensures SplitRecord(code + "|" + rest) == (code, Some(rest))
  {
    var line := code + "|" + rest;
    BeforeFirstAt(code, rest, '|');
    assert line == code + ['|'] + rest;
    var after := AfterFirst(line, '|').value;
    assert line == code + ['|'] + after;
    assert after == line[|code| + 1..] == rest;
  }

  /** `s.include?("\r\n")`. */
  predicate ContainsCrlf(s: string) {
    exists i :: 0 <= i < |s| - 1 && s[i] == '\r' && s[i + 1] == '\n'
  }

  /** `each_line("\n")`: the pieces of `s`, each ending just after a "\n",
      the last one possibly without. */
  function EachLine(s: string): (r: seq<string>)
    decreases |s|
  {
    if |s| == 0 then []
    else
      var b := BeforeFirst(s, '\n');
      BeforeFirstPrefix(s, '\n');
      if |b| == |s| then [s]
      else [s[..|b| + 1]] + EachLine(s[|b| + 1..])
  }

  /** The pieces joined back together. */
  function Concat(ls: seq<string>): string {
    if |ls| == 0 then "" else ls[0] + Concat(ls[1..])
  }

  /** A line as `each_line` yields it: not empty, and holding no newline
      once chomped. */
  predicate YieldedLine(l: string) {
    l != "" && '\n' !in Chomp(l)
  }

  /** One step of `each_line`: the first line, up to and including the
      first newline, then the lines of what follows it. */
  lemma EachLineStep(s: string, b: string)
    requires b == BeforeFirst(s, '\n') && |b| < |s|
    ensures EachLine(s) == [s[..|b| + 1]] + EachLine(s[|b| + 1..])
  {
    BeforeFirstPrefix(s, '\n');
  }

  /** That first line is the text before the newline and the newline. */
  lemma FirstLine(s: string, b: string)
    requires b == BeforeFirst(s, '\n') && |b| < |s|
    ensures s[..|b| + 1] == b + "\n" && YieldedLine(b + "\n")
  {
    BeforeFirstPrefix(s, '\n');
    ChompNewline(b);
  }

  /** The lines `each_line` yields are not empty, join back into the input,
      and hold no newline once chomped. */
  lemma {:induction false} EachLineJoins(s: string)
    ensures Concat(EachLine(s)) == s
    ensures forall i :: 0 <= i < |EachLine(s)| ==> YieldedLine(EachLine(s)[i])
    decreases |s|
  {
    if |s| > 0 {
      var b := BeforeFirst(s, '\n');
      BeforeFirstPrefix(s, '\n');
      if |b| == |s| {
        assert b == s;
        assert '\n' !in Chomp(s) by {
          assert Chomp(s) == s[..|Chomp(s)|];
        }
      } else {
        var head := s[..|b| + 1];
        var tail := s[|b| + 1..];
        EachLineStep(s, b);
        FirstLine(s, b);
        assert s == head + tail;
        var rest := EachLine(tail);
        EachLineJoins(tail);
        var all := [head] + rest;
        assert all[1..] == rest;
        assert Concat(all) == head + Concat(rest);
        forall i | 0 <= i < |all| ensures YieldedLine(all[i]) {
          if i > 0 {
            assert all[i] == rest[i - 1];
          }
        }
      }
    }
  }

  lemma ChompNewline(b: string)
    requires '\n' !in b
    ensures '\n' !in Chomp(b + "\n")
  {
    var r := Chomp(b + "\n");
    assert r == (b + "\n")[..|r|];
    assert |r| <= |b|;
    assert r == b[..|r|];
  }
}
