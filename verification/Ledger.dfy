/**
 The two-space hash ledger: how it is written, and how `parse_sums` reads it back with Python's
 `splitlines`, `strip` and `partition`.
 */
module Ledger {
  import opened Outcomes
  import opened Text

  predicate OneLine(s: string) {
    forall c | c in s :: !IsBreak(c)
  }

  function FirstBreak(s: string): (k: nat)
    ensures k <= |s| && OneLine(s[..k]) && (k < |s| ==> IsBreak(s[k]))
  {
    if s == [] || IsBreak(s[0]) then 0 else
    assert s[..1 + FirstBreak(s[1..])] == [s[0]] + s[1..][..FirstBreak(s[1..])];
    1 + FirstBreak(s[1..])
  }

  function SplitLines(s: string): (lines: seq<string>)
    ensures forall l | l in lines :: OneLine(l)
    decreases |s|
  {
    if s == [] then [] else
    var k := FirstBreak(s);
    if k == |s| then
      assert s[..k] == s;
      [s]
    else
      var skip := if s[k] == '\r' && k + 1 < |s| && s[k + 1] == '\n' then 2 else 1;
      [s[..k]] + SplitLines(s[k + skip..])
  }

  /** Where the first double space stands, or the length of the line. */
  function FirstGap(line: string): (k: nat)
    ensures k <= |line| && (k < |line| ==> k + 2 <= |line| && line[k] == ' ' && line[k + 1] == ' ')
  {
    if |line| < 2 then |line|
    else if line[0] == ' ' && line[1] == ' ' then 0
    else 1 + FirstGap(line[1..])
  }

  datatype LedgerError = MalformedLine

  /** The dictionary after these lines; blank lines are skipped and later lines win. */
  function ParseLines(lines: seq<string>): Result<map<string, string>, LedgerError> {
    if lines == [] then Ok(map[]) else
    var line := lines[|lines| - 1];
    var earlier :- ParseLines(lines[..|lines| - 1]);
    if Blank(line) then Ok(earlier) else
    var k := FirstGap(line);
    if k == |line| then Err(MalformedLine) else Ok(earlier[line[k + 2..] := line[..k]])
  }

  function ParseSums(text: string): Result<map<string, string>, LedgerError> {
    ParseLines(SplitLines(text))
  }

  /** `parse_sums`: fills the dictionary line by line. */
  method ReadSums(text: string) returns (r: Result<map<string, string>, LedgerError>)
    ensures r == ParseSums(text)
  {
    var lines := SplitLines(text);
    var result: map<string, string> := map[];
    for i := 0 to |lines|
      invariant ParseLines(lines[..i]) == Ok(result)
    {
      assert lines[..i + 1][..i] == lines[..i];
      var line := lines[i];
      if Blank(line) {
        continue;
      }
      var k := FirstGap(line);
      if k == |line| {
        ErrorPersists(lines, i + 1);
        return Err(MalformedLine);
      }
      result := result[line[k + 2..] := line[..k]];
    }
    assert lines[..|lines|] == lines;
    return Ok(result);
  }

  lemma {:induction false} ErrorPersists(lines: seq<string>, i: nat)
    requires i <= |lines| && ParseLines(lines[..i]).Err?
    ensures ParseLines(lines) == Err(MalformedLine)
    decreases |lines|
  {
    assert ParseLines(lines[..i]).error.MalformedLine?;
    if i == |lines| {
      assert lines[..i] == lines;
    } else {
      assert lines[..|lines| - 1][..i] == lines[..i];
      ErrorPersists(lines[..|lines| - 1], i);
    }
  }

  // ---------------------------------------------------------------- writing

  /** One ledger entry: a digest and the name it is filed under. */
  datatype Sum = Sum(digest: string, name: string)

  function LineOf(e: Sum): string {
    e.digest + "  " + e.name
  }

  function LedgerText(sums: seq<Sum>): string {
    if sums == [] then [] else LineOf(sums[0]) + "\n" + LedgerText(sums[1..])
  }

  /** The dictionary the entries stand for; later entries win. */
  function LedgerMap(sums: seq<Sum>): map<string, string> {
    if sums == [] then map[]
    else LedgerMap(sums[..|sums| - 1])[sums[|sums| - 1].name := sums[|sums| - 1].digest]
  }

  predicate HexDigest(s: string) {
    s != [] && forall c | c in s :: '0' <= c <= '9' || 'a' <= c <= 'f'
  }

  function LinesOf(sums: seq<Sum>): seq<string> {
    seq(|sums|, k requires 0 <= k < |sums| => LineOf(sums[k]))
  }

  lemma {:induction false} FirstBreakAt(line: string, rest: string)
    requires OneLine(line)
    ensures FirstBreak(line + "\n" + rest) == |line|
  {
    var s := line + "\n" + rest;
    if line != [] {
      assert s[1..] == line[1..] + "\n" + rest;
      FirstBreakAt(line[1..], rest);
    }
  }

  lemma SplitFirstLine(line: string, rest: string)
    requires OneLine(line)
    ensures SplitLines(line + "\n" + rest) == [line] + SplitLines(rest)
  {
    var s := line + "\n" + rest;
    FirstBreakAt(line, rest);
    assert s[..|line|] == line && s[|line| + 1..] == rest;
  }

  lemma LineIsOneLine(e: Sum)
    requires HexDigest(e.digest)
    ensures OneLine(LineOf(e)) <==> OneLine(e.name)
  {
    assert forall c :: c in LineOf(e) <==> c in e.digest || c == ' ' || c in e.name;
  }

  lemma {:induction false} LedgerLines(sums: seq<Sum>)
    requires forall e | e in sums :: HexDigest(e.digest) && OneLine(e.name)
    ensures SplitLines(LedgerText(sums)) == LinesOf(sums)
  {
    if sums != [] {
      assert sums[0] in sums;
      LineIsOneLine(sums[0]);
      SplitFirstLine(LineOf(sums[0]), LedgerText(sums[1..]));
      LedgerLines(sums[1..]);
      assert LinesOf(sums) == [LineOf(sums[0])] + LinesOf(sums[1..]);
    }
  }

  lemma {:induction false} FirstGapAt(digest: string, name: string)
    requires forall c | c in digest :: c != ' '
    ensures FirstGap(digest + "  " + name) == |digest|
  {
    var s := digest + "  " + name;
    if digest != [] {
      assert s[1..] == digest[1..] + "  " + name;
      assert s[0] == digest[0] && digest[0] in digest;
      assert forall c | c in digest[1..] :: c in digest;
      FirstGapAt(digest[1..], name);
    }
  }

  lemma LineReads(e: Sum)
    requires HexDigest(e.digest)
    ensures var line := LineOf(e);
            !Blank(line) && FirstGap(line) == |e.digest| < |line|
            && line[..|e.digest|] == e.digest && line[|e.digest| + 2..] == e.name
  {
    FirstGapAt(e.digest, e.name);
    assert e.digest[0] in LineOf(e) && e.digest[0] in e.digest;
  }

  lemma {:induction false} LinesReadBack(sums: seq<Sum>)
    requires forall e | e in sums :: HexDigest(e.digest)
    ensures ParseLines(LinesOf(sums)) == Ok(LedgerMap(sums))
    decreases |sums|
  {
    if sums != [] {
      var front := sums[..|sums| - 1];
      LinesReadBack(front);
      assert LinesOf(sums)[..|sums| - 1] == LinesOf(front);
      LineReads(sums[|sums| - 1]);
    }
  }

  /** The ledger round trip: what was written under one-line names is exactly what is read back. */
  lemma LedgerRoundTrip(sums: seq<Sum>)
    requires forall e | e in sums :: HexDigest(e.digest) && OneLine(e.name)
    ensures ParseSums(LedgerText(sums)) == Ok(LedgerMap(sums))
  {
    LedgerLines(sums);
    LinesReadBack(sums);
  }

  /** With distinct names, the dictionary files every digest under its own name and nothing else. */
  lemma {:induction false} LedgerMapExact(sums: seq<Sum>)
    requires forall j, k | 0 <= j < k < |sums| :: sums[j].name != sums[k].name
    ensures forall k | 0 <= k < |sums| ::
              sums[k].name in LedgerMap(sums) && LedgerMap(sums)[sums[k].name] == sums[k].digest
    ensures forall name | name in LedgerMap(sums) :: exists k :: 0 <= k < |sums| && sums[k].name == name
    decreases |sums|
  {
    if sums != [] {
      var n := |sums| - 1;
      LedgerMapExact(sums[..n]);
      forall name | name in LedgerMap(sums) ensures exists k :: 0 <= k < |sums| && sums[k].name == name {
        if name != sums[n].name {
          var k :| 0 <= k < n && sums[..n][k].name == name;
          assert sums[k].name == name;
        }
      }
      forall k | 0 <= k < |sums|
        ensures sums[k].name in LedgerMap(sums) && LedgerMap(sums)[sums[k].name] == sums[k].digest
      {
        if k < n {
          assert sums[..n][k] == sums[k];
        }
      }
    }
  }

  /** No name with a line break is ever read from any ledger text. */
  lemma {:induction false} NamesAreOneLine(lines: seq<string>)
    requires forall l | l in lines :: OneLine(l)
    ensures ParseLines(lines).Ok? ==> forall name | name in ParseLines(lines).value :: OneLine(name)
    decreases |lines|
  {
    if lines != [] {
      var line := lines[|lines| - 1];
      assert line in lines;
      NamesAreOneLine(lines[..|lines| - 1]);
      var k := FirstGap(line);
      if k < |line| {
        assert forall c | c in line[k + 2..] :: c in line;
      }
    }
  }

  lemma BrokenNamesAreLost(text: string, name: string)
    requires !OneLine(name) && ParseSums(text).Ok?
    ensures name !in ParseSums(text).value
  {
    NamesAreOneLine(SplitLines(text));
  }
}
