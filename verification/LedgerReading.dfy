/** What a ledger file means, line by line: which texts are its lines, and which line gives each name its digest. */
module LedgerReading {
  import opened Text
  import opened Ledger

  // ---------------------------------------------------------------- lines

  predicate IsBoundary(s: string) {
    s == "\r\n" || (|s| == 1 && IsBreak(s[0]))
  }

  /** A first line, what ends it, and the rest: a boundary, of which a carriage return takes a line feed along. */
  ghost predicate Cut(text: string, line: string, end: string, rest: string) {
    && text == line + end + rest && OneLine(line)
    && if end == "" then line != "" && rest == "" else IsBoundary(end) && !(end == "\r" && "\n" <= rest)
  }

  /** The lines of a text, without what ends them; after the last boundary there is no further line. */
  ghost predicate LinesAre(text: string, lines: seq<string>)
    decreases |lines|
  {
    if lines == [] then text == ""
    else exists end: string, rest: string :: Cut(text, lines[0], end, rest) && LinesAre(rest, lines[1..])
  }

  lemma {:induction false} FirstBreakAt(line: string, tail: string)
    requires OneLine(line) && (tail == "" || IsBreak(tail[0]))
    ensures FirstBreak(line + tail) == |line|
  {
    if line == [] {
      assert line + tail == tail;
    } else {
      assert (line + tail)[1..] == line[1..] + tail;
      assert line[0] in line && forall c | c in line[1..] :: c in line;
      FirstBreakAt(line[1..], tail);
    }
  }

  /** How many characters end the first line. */
  function EndLength(s: string): nat
    requires FirstBreak(s) < |s|
  {
    var k := FirstBreak(s);
    if s[k] == '\r' && k + 1 < |s| && s[k + 1] == '\n' then 2 else 1
  }

  lemma CutIs(text: string, line: string, end: string, rest: string)
    requires Cut(text, line, end, rest)
    ensures line == text[..FirstBreak(text)] && text != ""
    ensures if end == "" then FirstBreak(text) == |text| && rest == ""
            else FirstBreak(text) < |text| && rest == text[FirstBreak(text) + EndLength(text)..]
  {
    assert text == line + (end + rest);
    if end != "" {
      assert (end + rest)[0] == end[0];
    }
    FirstBreakAt(line, end + rest);
    var k := |line|;
    assert text[..k] == line;
    if end != "" {
      assert text[k] == end[0];
      assert rest != "" && |end| == 1 ==> text[k + 1] == rest[0];
      assert |end| == 2 ==> text[k + 1] == end[1];
      assert text[k + |end|..] == rest;
      assert rest != "" && rest[0] == '\n' ==> "\n" <= rest;
      assert end[0] == '\r' && |end| == 1 ==> end == "\r";
    }
  }

  /** The piece of a text that ends its first line. */
  function FirstEnd(text: string): string
    requires FirstBreak(text) < |text|
  {
    text[FirstBreak(text)..FirstBreak(text) + EndLength(text)]
  }

  lemma EndIsBoundary(text: string)
    requires FirstBreak(text) < |text|
    ensures var rest := text[FirstBreak(text) + EndLength(text)..];
            IsBoundary(FirstEnd(text)) && !(FirstEnd(text) == "\r" && "\n" <= rest)
  {
    var k := FirstBreak(text);
    var end, rest := FirstEnd(text), text[k + EndLength(text)..];
    assert end[0] == text[k];
    if EndLength(text) == 2 {
      assert end == [text[k], text[k + 1]];
    } else if rest != "" {
      assert rest[0] == text[k + 1];
    }
  }

  lemma ThreeParts(s: string, k: nat, m: nat)
    requires k <= m <= |s|
    ensures s == s[..k] + s[k..m] + s[m..]
  {
  }

  lemma CutExists(text: string)
    requires FirstBreak(text) < |text|
    ensures var k := FirstBreak(text); Cut(text, text[..k], FirstEnd(text), text[k + EndLength(text)..])
  {
    EndIsBoundary(text);
    ThreeParts(text, FirstBreak(text), FirstBreak(text) + EndLength(text));
    assert FirstEnd(text) != "";
  }

  lemma LastLine(text: string)
    requires text != "" && FirstBreak(text) == |text|
    ensures Cut(text, text, "", "") && SplitLines(text) == [text]
  {
    assert text[..|text|] == text && text == text + "" + "";
  }

  lemma NothingToCut(line: string, end: string, rest: string)
    ensures !Cut("", line, end, rest)
  {
    assert |line + end + rest| == |line| + |end| + |rest|;
  }

  /** What follows the first line and its end. */
  function RestOf(text: string): string {
    if FirstBreak(text) == |text| then "" else text[FirstBreak(text) + EndLength(text)..]
  }

  lemma SplitStep(text: string)
    requires text != ""
    ensures SplitLines(text) == [text[..FirstBreak(text)]] + SplitLines(RestOf(text))
    ensures exists end: string :: Cut(text, text[..FirstBreak(text)], end, RestOf(text))
  {
    if FirstBreak(text) == |text| {
      LastLine(text);
      assert text[..|text|] == text && SplitLines("") == [];
    } else {
      CutExists(text);
    }
  }

  /** `splitlines` gives the lines of a text. */
  lemma {:induction false} SplitExactly(text: string, lines: seq<string>)
    ensures LinesAre(text, lines) <==> lines == SplitLines(text)
    decreases |text|
  {
    if text == "" {
      forall line: string, end: string, rest: string ensures !Cut("", line, end, rest) {
        NothingToCut(line, end, rest);
      }
    } else {
      SplitStep(text);
      if lines != [] {
        SplitExactly(RestOf(text), lines[1..]);
        FirstLine(text, lines);
      }
    }
  }

  lemma FirstLine(text: string, lines: seq<string>)
    requires text != "" && lines != []
    requires LinesAre(RestOf(text), lines[1..]) <==> lines[1..] == SplitLines(RestOf(text))
    ensures LinesAre(text, lines) <==> lines == SplitLines(text)
  {
    SplitStep(text);
    if LinesAre(text, lines) {
      var end: string, after: string :| Cut(text, lines[0], end, after) && LinesAre(after, lines[1..]);
      CutIs(text, lines[0], end, after);
      assert lines == [lines[0]] + lines[1..];
    }
    if lines == SplitLines(text) {
      var end: string :| Cut(text, text[..FirstBreak(text)], end, RestOf(text));
      assert lines[1..] == SplitLines(RestOf(text)) && lines[0] == text[..FirstBreak(text)];
    }
  }

  // ---------------------------------------------------------------- entries

  /** The line files `digest` under `name`: they stand before and after the first two spaces in a row. */
  ghost predicate Files(line: string, digest: string, name: string) {
    && !Blank(line) && line == digest + "  " + name
    && forall i | 0 <= i < |digest| :: !(line[i] == ' ' && line[i + 1] == ' ')
  }

  lemma {:induction false} GapExact(line: string, k: nat)
    ensures FirstGap(line) == k && k < |line| <==>
              && k + 2 <= |line| && line[k] == ' ' && line[k + 1] == ' '
              && forall i | 0 <= i < k :: !(line[i] == ' ' && line[i + 1] == ' ')
  {
    if |line| >= 2 && !(line[0] == ' ' && line[1] == ' ') {
      var rest := line[1..];
      if k > 0 {
        GapExact(rest, k - 1);
        assert forall i | 0 <= i < |rest| :: rest[i] == line[i + 1];
        forall i |
          0 <= i < k && k + 2 <= |line| && (forall j | 0 <= j < k - 1 :: !(rest[j] == ' ' && rest[j + 1] == ' '))
          ensures !(line[i] == ' ' && line[i + 1] == ' ')
        {
          if i > 0 {
            assert rest[i - 1] == line[i] && rest[i] == line[i + 1];
          }
        }
      }
    }
  }

  lemma FilesExact(line: string, digest: string, name: string)
    ensures Files(line, digest, name) <==>
              && !Blank(line) && FirstGap(line) < |line|
              && digest == line[..FirstGap(line)] && name == line[FirstGap(line) + 2..]
  {
    if Files(line, digest, name) {
      var k := |digest|;
      assert line[k] == ' ' && line[k + 1] == ' ';
      GapExact(line, k);
      assert line[..k] == digest && line[k + 2..] == name;
    }
    if FirstGap(line) < |line| {
      var k := FirstGap(line);
      GapExact(line, k);
      assert line == line[..k] + "  " + line[k + 2..];
    }
  }

  predicate Readable(line: string) {
    Blank(line) || exists i :: 0 <= i < |line| - 1 && line[i] == ' ' && line[i + 1] == ' '
  }

  lemma {:induction false} GapExists(line: string, i: nat)
    requires i + 1 < |line| && line[i] == ' ' && line[i + 1] == ' '
    ensures FirstGap(line) < |line|
  {
    if i > 0 && !(line[0] == ' ' && line[1] == ' ') {
      GapExists(line[1..], i - 1);
    }
  }

  lemma ReadableExact(line: string)
    ensures Readable(line) <==> Blank(line) || FirstGap(line) < |line|
  {
    if i :| 0 <= i < |line| - 1 && line[i] == ' ' && line[i + 1] == ' ' {
      GapExists(line, i);
    }
    if FirstGap(line) < |line| {
      assert line[FirstGap(line)] == ' ' && line[FirstGap(line) + 1] == ' ';
    }
  }

  /** The k-th line files `digest` under `name`, and no later line files anything under it. */
  ghost predicate LastFiled(lines: seq<string>, k: nat, digest: string, name: string) {
    && k < |lines| && Files(lines[k], digest, name)
    && forall j, other | k < j < |lines| :: !Files(lines[j], other, name)
  }

  ghost predicate Gives(lines: seq<string>, digest: string, name: string) {
    exists k: nat :: LastFiled(lines, k, digest, name)
  }

  lemma GivesStep(lines: seq<string>, digest: string, name: string)
    requires lines != []
    ensures var n := |lines| - 1;
            Gives(lines, digest, name) <==>
              || Files(lines[n], digest, name)
              || (Gives(lines[..n], digest, name) && forall other :: !Files(lines[n], other, name))
  {
    var n := |lines| - 1;
    var front := lines[..n];
    if k: nat :| LastFiled(lines, k, digest, name) && k < n {
      assert LastFiled(front, k, digest, name);
    }
    if Files(lines[n], digest, name) {
      assert LastFiled(lines, n, digest, name);
    }
    if Gives(front, digest, name) && forall other :: !Files(lines[n], other, name) {
      var k: nat :| LastFiled(front, k, digest, name);
      assert LastFiled(lines, k, digest, name);
    }
  }

  /** What one line files, if it files anything. */
  lemma LineFiles(line: string, name: string)
    ensures Blank(line) || FirstGap(line) == |line| ==> forall d :: !Files(line, d, name)
    ensures !Blank(line) && FirstGap(line) < |line| ==>
              var k := FirstGap(line);
              forall d :: Files(line, d, name) <==> name == line[k + 2..] && d == line[..k]
  {
    forall d ensures Files(line, d, name) <==>
      !Blank(line) && FirstGap(line) < |line| && d == line[..FirstGap(line)] && name == line[FirstGap(line) + 2..]
    {
      FilesExact(line, d, name);
    }
  }

  /** A list of lines is read exactly when every line is blank or has a gap; each name then has its last digest. */
  lemma {:induction false} LinesExactly(lines: seq<string>, digest: string, name: string)
    ensures ParseLines(lines).Ok? <==> forall line | line in lines :: Readable(line)
    ensures ParseLines(lines).Ok? ==> (Filed(ParseLines(lines).value, digest, name) <==> Gives(lines, digest, name))
    decreases |lines|
  {
    if lines != [] {
      var n := |lines| - 1;
      var front, line := lines[..n], lines[n];
      assert forall l :: l in lines <==> l in front || l == line;
      LinesExactly(front, digest, name);
      ReadableExact(line);
      GivesStep(lines, digest, name);
      LineFiles(line, name);
      if !Blank(line) && FirstGap(line) < |line| {
        assert Files(line, line[..FirstGap(line)], name) <==> name == line[FirstGap(line) + 2..];
      }
    }
  }

  predicate Filed(sums: map<string, string>, digest: string, name: string) {
    name in sums && sums[name] == digest
  }

  /**
   A ledger is read exactly when each of its lines is blank or has two spaces in a row, and then it gives a name a
   digest exactly when the last line that files anything under the name files that digest.
   */
  lemma SumsExactly(text: string, lines: seq<string>, digest: string, name: string)
    requires LinesAre(text, lines)
    ensures ParseSums(text).Ok? <==> forall line | line in lines :: Readable(line)
    ensures ParseSums(text).Ok? ==> (Filed(ParseSums(text).value, digest, name) <==> Gives(lines, digest, name))
  {
    SplitExactly(text, lines);
    LinesExactly(lines, digest, name);
  }
}
