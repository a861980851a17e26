/**
 One-component file patterns as `pathlib.Path.glob` of Python 3.12 reads them: `*`, `?`, bracketed
 character classes as `fnmatch` translates them, and the refusal of `**` inside a component.
 */
module Glob {
  import opened Outcomes

  datatype ClassItem = One(c: char) | Range(lo: char, hi: char)

  datatype CharClass = CharClass(negated: bool, items: seq<ClassItem>)

  predicate Holds(item: ClassItem, c: char) {
    match item
    case One(d) => c == d
    case Range(lo, hi) => lo <= c <= hi
  }

  predicate InClass(c: char, k: CharClass) {
    (exists item | item in k.items :: Holds(item, c)) != k.negated
  }

  /** Where `c` first stands in `s` from position `from`, or the length of `s`. */
  function Find(s: string, c: char, from: nat): (k: nat)
    requires from <= |s|
    ensures from <= k <= |s| && (k < |s| ==> s[k] == c)
    decreases |s| - from
  {
    if from == |s| || s[from] == c then from else Find(s, c, from + 1)
  }

  /** Where the class that `s` starts inside closes. A leading `]`, also after `!`, is a member. */
  function ClosingBracket(s: string): Option<nat> {
    var j := if s != [] && s[0] == '!' then 1 else 0;
    var start := if j < |s| && s[j] == ']' then j + 1 else j;
    var k := Find(s, ']', start);
    if k == |s| then None else Some(k)
  }

  /** Single characters, and ranges wherever a hyphen stands between two characters. */
  function Items(body: string): seq<ClassItem> {
    if body == [] then []
    else if |body| >= 3 && body[1] == '-' then [Range(body[0], body[2])] + Items(body[3..])
    else [One(body[0])] + Items(body[1..])
  }

  function WithoutEmptyRanges(items: seq<ClassItem>): seq<ClassItem> {
    if items == [] then []
    else if items[0].Range? && items[0].lo > items[0].hi then WithoutEmptyRanges(items[1..])
    else [items[0]] + WithoutEmptyRanges(items[1..])
  }

  /**
   The class between the brackets. When dropping empty ranges leaves an exclamation mark in front, the
   translation takes it for a negation, and a range that started there for its two ends.
   */
  function ClassOf(body: string): CharClass {
    if body != [] && body[0] == '!' then CharClass(true, WithoutEmptyRanges(Items(body[1..]))) else
    var items := WithoutEmptyRanges(Items(body));
    if items != [] && items[0] == One('!') then CharClass(true, items[1..])
    else if items != [] && items[0].Range? && items[0].lo == '!' then
      CharClass(true, [One('-'), One(items[0].hi)] + items[1..])
    else CharClass(false, items)
  }

  /** `fnmatch.fnmatchcase(name, pattern)` */
  predicate Matches(pattern: string, name: string)
    decreases |pattern| + |name|
  {
    if pattern == [] then name == []
    else if pattern[0] == '*' then
      Matches(pattern[1..], name) || (name != [] && Matches(pattern, name[1..]))
    else if name == [] then false
    else if pattern[0] == '?' then Matches(pattern[1..], name[1..])
    else if pattern[0] == '[' && ClosingBracket(pattern[1..]).Some? then
      var k := ClosingBracket(pattern[1..]).value;
      InClass(name[0], ClassOf(pattern[1..][..k])) && Matches(pattern[1..][k + 1..], name[1..])
    else name[0] == pattern[0] && Matches(pattern[1..], name[1..])
  }

  /** A component with `**` in it is refused before any file is looked at. */
  predicate Acceptable(pattern: string) {
    forall i | 0 <= i < |pattern| - 1 :: !(pattern[i] == '*' && pattern[i + 1] == '*')
  }

  /** Text that stands for itself in a pattern. */
  predicate Ordinary(s: string) {
    forall c | c in s :: c != '*' && c != '?' && c != '['
  }

  lemma {:induction false} StarMatchesAll(name: string)
    ensures Matches("*", name)
  {
    if name != [] {
      StarMatchesAll(name[1..]);
    } else {
      assert "*"[1..] == [];
    }
  }

  lemma OrdinaryStep(c: char, rest: string, name: string)
    requires c != '*' && c != '?' && c != '['
    ensures Matches([c] + rest, name) <==> name != [] && name[0] == c && Matches(rest, name[1..])
  {
    assert ([c] + rest)[1..] == rest;
  }

  /** An ordinary text and a star match exactly the names that start with the text. */
  lemma {:induction false} OrdinaryPrefix(s: string, name: string)
    requires Ordinary(s)
    ensures Matches(s + "*", name) <==> s <= name
  {
    if s == [] {
      assert s + "*" == "*";
      StarMatchesAll(name);
    } else {
      var c, rest := s[0], s[1..];
      assert s + "*" == [c] + (rest + "*") && s == [c] + rest;
      assert c in s && forall d | d in rest :: d in s;
      OrdinaryStep(c, rest + "*", name);
      if name != [] {
        OrdinaryPrefix(rest, name[1..]);
        assert name == [name[0]] + name[1..];
        assert s <= name <==> name[0] == c && rest <= name[1..];
      }
    }
  }

  /** A question mark in front matches any one character. */
  lemma QuestionStep(rest: string, name: string)
    ensures Matches("?" + rest, name) <==> name != [] && Matches(rest, name[1..])
  {
    assert ("?" + rest)[1..] == rest;
  }

  /** A star in front matches any beginning, the empty one too. */
  lemma {:induction false} StarStep(rest: string, name: string)
    ensures Matches("*" + rest, name) <==> exists k :: 0 <= k <= |name| && Matches(rest, name[k..])
    decreases |name|
  {
    assert ("*" + rest)[1..] == rest && name[0..] == name;
    assert Matches("*" + rest, name) <==> Matches(rest, name) || (name != [] && Matches("*" + rest, name[1..]));
    if name != [] {
      var tail := name[1..];
      StarStep(rest, tail);
      if k :| 0 <= k <= |tail| && Matches(rest, tail[k..]) {
        assert tail[k..] == name[k + 1..];
        assert Matches(rest, name[k + 1..]);
      }
      if k :| 0 < k <= |name| && Matches(rest, name[k..]) {
        assert tail[k - 1..] == name[k..];
        assert Matches(rest, tail[k - 1..]);
      }
    }
  }

  /** Text without a hyphen, an exclamation mark or a closing bracket lists the characters of a class. */
  predicate PlainClass(body: string) {
    body != [] && forall c | c in body :: c != '-' && c != '!' && c != ']'
  }

  lemma {:induction false} FindPast(body: string, rest: string, from: nat)
    requires from <= |body| && ']' !in body
    ensures Find(body + "]" + rest, ']', from) == |body|
    decreases |body| - from
  {
    var s := body + "]" + rest;
    if from < |body| {
      assert s[from] == body[from] && body[from] in body;
      FindPast(body, rest, from + 1);
    } else {
      assert s[from] == ']';
    }
  }

  lemma {:induction false} PlainItems(body: string)
    requires forall c | c in body :: c != '-'
    ensures WithoutEmptyRanges(Items(body)) == Items(body)
    ensures forall c :: (exists item | item in Items(body) :: Holds(item, c)) <==> c in body
    ensures body != [] ==> Items(body) != [] && Items(body)[0] == One(body[0])
  {
    if body != [] {
      assert body == [body[0]] + body[1..] && forall c | c in body[1..] :: c in body;
      assert |body| >= 3 ==> body[1] in body;
      PlainItems(body[1..]);
      var items, rest := Items(body), Items(body[1..]);
      assert items == [One(body[0])] + rest;
      forall c ensures (exists item | item in items :: Holds(item, c)) <==> c in body {
        assert (exists item | item in items :: Holds(item, c)) <==>
               c == body[0] || exists item | item in rest :: Holds(item, c) by {
          assert forall item :: item in items <==> item == One(body[0]) || item in rest;
          assert Holds(One(body[0]), c) <==> c == body[0];
        }
      }
    }
  }

  lemma PlainClassHolds(body: string, c: char)
    requires PlainClass(body)
    ensures InClass(c, ClassOf(body)) <==> c in body
    ensures InClass(c, ClassOf("!" + body)) <==> c !in body
  {
    assert body[0] in body && forall d | d in body :: d != '-';
    PlainItems(body);
    assert ("!" + body)[1..] == body;
  }

  /** `[abc]` matches one of its characters, and `[!abc]` one that is none of them. */
  lemma ClassStep(body: string, rest: string, name: string)
    requires PlainClass(body)
    ensures Matches("[" + body + "]" + rest, name) <==> name != [] && name[0] in body && Matches(rest, name[1..])
    ensures Matches("[!" + body + "]" + rest, name) <==> name != [] && name[0] !in body && Matches(rest, name[1..])
  {
    PlainBracket(body, rest);
    NegatedBracket(body, rest);
    if name != [] {
      PlainClassHolds(body, name[0]);
    }
  }

  lemma PlainBracket(body: string, rest: string)
    requires PlainClass(body)
    ensures var p := "[" + body + "]" + rest;
            && p[0] == '[' && ClosingBracket(p[1..]) == Some(|body|)
            && p[1..][..|body|] == body && p[1..][|body| + 1..] == rest
  {
    var s := body + "]" + rest;
    assert ("[" + body + "]" + rest)[1..] == s;
    assert body[0] in body && s[0] == body[0];
    FindPast(body, rest, 0);
    assert s[..|body|] == body && s[|body| + 1..] == rest;
  }

  lemma NegatedBracket(body: string, rest: string)
    requires PlainClass(body)
    ensures var p := "[!" + body + "]" + rest;
            && p[0] == '[' && ClosingBracket(p[1..]) == Some(|body| + 1)
            && p[1..][..|body| + 1] == "!" + body && p[1..][|body| + 2..] == rest
  {
    var inner := "!" + body;
    var s := inner + "]" + rest;
    assert ("[!" + body + "]" + rest)[1..] == s;
    assert s[0] == '!' && s[1] == body[0] && body[0] in body && s[1] != ']';
    FindPast(inner, rest, 1);
    assert s[..|inner|] == inner && s[|inner| + 1..] == rest;
  }

  /** `[a-c]` matches the characters from its first to its last. */
  lemma RangeHolds(lo: char, hi: char, c: char)
    requires lo != '!' && lo <= hi
    ensures InClass(c, ClassOf([lo, '-', hi])) <==> lo <= c <= hi
  {
    var body := [lo, '-', hi];
    var one := Range(lo, hi);
    SingleRange(body, lo, hi);
    assert ClassOf(body) == CharClass(false, [one]);
    assert one in [one] && (Holds(one, c) <==> lo <= c <= hi);
  }

  lemma SingleRange(body: string, lo: char, hi: char)
    requires body == [lo, '-', hi] && lo <= hi
    ensures WithoutEmptyRanges(Items(body)) == [Range(lo, hi)]
  {
    var none: seq<ClassItem> := [];
    var one := [Range(lo, hi)];
    assert body[3..] == [] && Items(body[3..]) == none;
    assert Items(body) == one + none && one + none == one;
    assert one[1..] == none && WithoutEmptyRanges(none) == none;
  }

  /** A question mark matches any one character, and a character that is no wildcard itself. */
  lemma OneStep(c: char, rest: string, name: string)
    ensures Matches("?" + rest, name) <==> name != "" && Matches(rest, name[1..])
    ensures c != '*' && c != '?' && c != '[' ==>
              (Matches([c] + rest, name) <==> name != "" && name[0] == c && Matches(rest, name[1..]))
  {
    assert ("?" + rest)[1..] == rest && ([c] + rest)[1..] == rest;
  }

  lemma {:induction false} FindFrom(head: string, body: string, rest: string, i: nat)
    requires i <= |body| && ']' !in body
    ensures Find(head + body + "]" + rest, ']', |head| + i) == |head| + |body|
    decreases |body| - i
  {
    var s := head + body + "]" + rest;
    if i < |body| {
      assert s[|head| + i] == body[i] && body[i] in body;
      FindFrom(head, body, rest, i + 1);
    } else {
      assert s[|head| + i] == ']';
    }
  }

  /** A closing bracket that comes first, or right after the exclamation mark, is a member of the class. */
  lemma FirstBracket(body: string, rest: string)
    requires ']' !in body
    ensures ClosingBracket("]" + body + "]" + rest) == Some(1 + |body|)
    ensures ClosingBracket("!]" + body + "]" + rest) == Some(2 + |body|)
  {
    FindFrom("]", body, rest, 0);
    FindFrom("!]", body, rest, 0);
    assert ("!]" + body + "]" + rest)[1] == ']';
  }

  lemma AfterEmptyRange(items: seq<ClassItem>)
    ensures WithoutEmptyRanges([Range('z', 'a')] + items) == WithoutEmptyRanges(items)
  {
    assert ([Range('z', 'a')] + items)[1..] == items;
  }

  lemma ItemsAfterRange(rest: string)
    ensures Items("z-a" + rest) == [Range('z', 'a')] + Items(rest)
  {
    assert ("z-a" + rest)[3..] == rest;
  }

  lemma TwoItems(c: char)
    requires c > '!' && c != '-'
    ensures Items(['!', c]) == [One('!'), One(c)] && Items(['!', '-', c]) == [Range('!', c)]
    ensures WithoutEmptyRanges([One('!'), One(c)]) == [One('!'), One(c)]
    ensures WithoutEmptyRanges([Range('!', c)]) == [Range('!', c)]
  {
    assert ['!', c][1..] == [c] && [c][1..] == [] && ['!', '-', c][3..] == [];
    assert Items([c]) == [One(c)];
    assert [One('!'), One(c)][1..] == [One(c)] && [One(c)][1..] == [] && [Range('!', c)][1..] == [];
    assert WithoutEmptyRanges([One(c)]) == [One(c)];
  }

  /** An empty range disappears, and an exclamation mark that then comes first negates what follows it. */
  lemma EmptyRange(c: char)
    requires c > '!' && c != '-'
    ensures ClassOf("z-a" + ['!', c]) == CharClass(true, [One(c)])
    ensures ClassOf("z-a" + ['!', '-', c]) == CharClass(true, [One('-'), One(c)])
  {
    TwoItems(c);
    ItemsAfterRange(['!', c]);
    ItemsAfterRange(['!', '-', c]);
    AfterEmptyRange([One('!'), One(c)]);
    AfterEmptyRange([Range('!', c)]);
    assert [One('!'), One(c)][1..] == [One(c)] && [Range('!', c)][1..] == [];
  }
}
