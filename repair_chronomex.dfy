/** repair_chronomex.rb: a filter over an output file that strips the
    leading zeros of every code and drops the lines that are blank, whose
    code is all zeros, whose url is missing or empty, or whose url is on the
    list of known error pages. */
module RepairChronomex {
  import opened Wrappers
  import opened RubyText

  /** `bad_urls`. */
  const BadUrls: seq<string> := ["http://4url.cc/error.html"]

  /** The number of "0" characters `code` starts with. */
  function LeadingZeros(code: string): (n: nat)
    ensures n <= |code|
    ensures forall i :: 0 <= i < n ==> code[i] == '0'
    ensures n == |code| || code[n] != '0'
  {
    if |code| == 0 || code[0] != '0' then 0 else 1 + LeadingZeros(code[1..])
  }

  /** `code.gsub!(/^0+/, "")` on a code without a newline: `^` then only
      matches at the start, so the leading run of zeros goes. */
  function StripZeros(code: string): (r: string)
    requires '\n' !in code
    ensures |r| <= |code| && code == code[..|code| - |r|] + r
    ensures forall i :: 0 <= i < |code| - |r| ==> code[i] == '0'
    ensures r == "" || r[0] != '0'
  {
    code[LeadingZeros(code)..]
  }

  /** What one line becomes: nothing, or the repaired code and its url. */
  function RepairLine(raw: string): (r: Option<(string, string)>)
    requires '\n' !in Chomp(raw)
  {
    var line := Chomp(raw);
    if line == "" then None
    else
      var (code, url) := SplitRecord(line);
      var code' := StripZeros(code);
      if code' == "" then None
      else if url.None? || url.value == "" then None
      else if url.value in BadUrls then None
      else Some((code', url.value))
  }

  /** The line written for a kept record. */
  function Written(k: (string, string)): (w: string)
    ensures |w| == |k.0| + |k.1| + 2 && w[|w| - 1] == '\n'
  {
    k.0 + "|" + k.1 + "\n"
  }

  /** The records kept from `lines`, in order. */
  function Kept(lines: seq<string>): (r: seq<(string, string)>)
    requires forall i :: 0 <= i < |lines| ==> '\n' !in Chomp(lines[i])
    ensures |r| <= |lines|
  {
    if |lines| == 0 then []
    else
      var rest := Kept(lines[1..]);
      match RepairLine(lines[0])
      case None => rest
      case Some(k) => [k] + rest
  }

  function Render(ks: seq<(string, string)>): string {
    if |ks| == 0 then "" else Written(ks[0]) + Render(ks[1..])
  }

  /** The script over the whole of standard input. */
  function Repair(input: string): string {
    EachLineJoins(input);
    Render(Kept(EachLine(input)))
  }

  /** A line is kept exactly when it is not blank, its code is not all
      zeros, it has a non-empty url and that url is not a known error page;
      the kept code is the original one without its leading zeros and the
      url is the original one. */
  lemma RepairLineKeeps(raw: string)
    requires '\n' !in Chomp(raw)
    ensures RepairLine(raw).Some? <==>
      && Chomp(raw) != ""
      && (exists i :: 0 <= i < |SplitRecord(Chomp(raw)).0| && SplitRecord(Chomp(raw)).0[i] != '0')
      && SplitRecord(Chomp(raw)).1.Some? && SplitRecord(Chomp(raw)).1.value != ""
      && SplitRecord(Chomp(raw)).1.value !in BadUrls
    ensures RepairLine(raw).Some? ==>
      var (code, url) := RepairLine(raw).value;
      && Chomp(raw) == Repeat0(|Chomp(raw)| - |code| - |url| - 1) + code + "|" + url
  {
    var line := Chomp(raw);
    if line != "" {
      var (code, url) := SplitRecord(line);
      var code' := StripZeros(code);
      var z := |code| - |code'|;
      AllZeros(code, z);
      if code' == "" {
        assert forall i :: 0 <= i < |code| ==> code[i] == '0';
      } else {
        assert code[z] == code'[0] && code[z] != '0';
      }
      if RepairLine(raw).Some? {
        assert code[..z] == Repeat0(z);
        calc {
          line;
          code + "|" + url.value;
          code[..z] + code' + "|" + url.value;
        }
      }
    }
  }

  /** A string of `n` zeros. */
  function Repeat0(n: nat): (r: string)
    ensures |r| == n && forall i :: 0 <= i < n ==> r[i] == '0'
  {
    if n == 0 then "" else "0" + Repeat0(n - 1)
  }

  lemma AllZeros(code: string, z: nat)
    requires z <= |code| && forall i :: 0 <= i < z ==> code[i] == '0'
    ensures code[..z] == Repeat0(z)
  {
  }

  /** Every written line has a code that is not empty and does not start
      with "0", and a url that is not empty and not a known error page. */
  lemma {:induction false} KeptShape(lines: seq<string>)
    requires forall i :: 0 <= i < |lines| ==> '\n' !in Chomp(lines[i])
    ensures forall j :: 0 <= j < |Kept(lines)| ==> GoodRecord(Kept(lines)[j])
  {
    if |lines| > 0 {
      var rest := Kept(lines[1..]);
      KeptShape(lines[1..]);
      var r := RepairLine(lines[0]);
      if r.Some? {
        RepairLineShape(lines[0]);
        assert Kept(lines) == [r.value] + rest;
      } else {
        assert Kept(lines) == rest;
      }
    }
  }

  /** What every written record satisfies. */
  predicate GoodRecord(k: (string, string)) {
    k.0 != "" && k.0[0] != '0' && k.1 != "" && k.1 !in BadUrls && '|' !in k.0
  }

  lemma RepairLineShape(raw: string)
    requires '\n' !in Chomp(raw)
    ensures RepairLine(raw).Some? ==> GoodRecord(RepairLine(raw).value)
  {
  }
}
