/**
 The JSON texts of sections 2-7 of RFC 8259, numbers being integers, as trees that keep every choice a writer
 has: blanks, the order and repetition of keys, the spelling of each character and number. The reader reads
 exactly these texts, and the byte gate accepts exactly the trees in which no choice was used.
 */
module JsonGrammar {
  import opened Outcomes
  import opened Text
  import opened Numerals
  import opened Utf8
  import opened Json
  import opened JsonRoundTrip
  import opened CanonicalGate

  // ---------------------------------------------------------------- characters

  datatype Character = Plain(c: char) | Short(letter: char) | Hex(digits: string) | Pair(high: string, low: string)

  /** Section 7: what each two-character escape stands for. */
  const SHORT: map<char, char> := map[
    '\"' := '\"', '\\' := '\\', '/' := '/', 'b' := 0x08 as char, 'f' := 0x0C as char, 'n' := 0x0A as char,
    'r' := 0x0D as char, 't' := 0x09 as char]

  const UPPER_HEX := "0123456789ABCDEF"

  lemma HexValueExact(c: char, d: nat)
    ensures HexValue(c) == Some(d) <==> d < 16 && (c == HEX[d] || c == UPPER_HEX[d])
  {
  }

  predicate IsHex4(s: string) {
    |s| == 4 && forall c | c in s :: HexValue(c).Some?
  }

  function HexNumber(s: string): nat
    requires IsHex4(s)
  {
    HexValue(s[0]).value * 0x1000 + HexValue(s[1]).value * 0x100 + HexValue(s[2]).value * 0x10 + HexValue(s[3]).value
  }

  predicate ValidCharacter(f: Character) {
    match f
    case Plain(c) => c != '\"' && c != '\\' && c as int >= 0x20
    case Short(letter) => letter in SHORT
    case Hex(digits) => IsHex4(digits) && !(0xD800 <= HexNumber(digits) < 0xE000)
    case Pair(high, low) =>
      && IsHex4(high) && 0xD800 <= HexNumber(high) < 0xDC00
      && IsHex4(low) && 0xDC00 <= HexNumber(low) < 0xE000
  }

  function MeantCharacter(f: Character): char
    requires ValidCharacter(f)
  {
    match f
    case Plain(c) => c
    case Short(letter) => SHORT[letter]
    case Hex(digits) => HexNumber(digits) as char
    case Pair(high, low) => (0x10000 + (HexNumber(high) - 0xD800) * 0x400 + (HexNumber(low) - 0xDC00)) as char
  }

  /** The text of a character, followed by `rest`. */
  function SpellCharacter(f: Character, rest: string): string {
    match f
    case Plain(c) => [c] + rest
    case Short(letter) => "\\" + ([letter] + rest)
    case Hex(digits) => "\\" + ("u" + (digits + rest))
    case Pair(high, low) => "\\" + ("u" + (high + ("\\u" + (low + rest))))
  }

  type Characters = seq<Character>

  predicate ValidCharacters(fs: Characters) {
    forall f | f in fs :: ValidCharacter(f)
  }

  function MeantCharacters(fs: Characters): string
    requires ValidCharacters(fs)
  {
    if fs == [] then [] else [MeantCharacter(fs[0])] + MeantCharacters(fs[1..])
  }

  function SpellCharacters(fs: Characters, rest: string): string {
    if fs == [] then rest else SpellCharacter(fs[0], SpellCharacters(fs[1..], rest))
  }

  /** A string token, its quotation marks included. */
  function SpellString(fs: Characters, rest: string): string {
    "\"" + SpellCharacters(fs, "\"" + rest)
  }

  // ---------------------------------------------------------------- trees

  datatype Tree =
    | Null
    | Bool(b: bool)
    | Number(negative: bool, digits: string)
    | String(chars: Characters)
    | Array(blank: string, items: seq<Item>)
    | Object(blank: string, members: seq<Member>)

  datatype Item = Item(before: string, value: Tree, after: string)

  datatype Member =
    Member(before: string, key: Characters, beforeColon: string, afterColon: string, value: Tree, after: string)

  predicate Blanks(s: string) {
    forall c | c in s :: c == ' ' || c == '\t' || c == '\n' || c == '\r'
  }

  predicate ValidDigits(digits: string) {
    digits != [] && AllDigits(digits) && (digits[0] == '0' ==> digits == "0")
  }

  predicate Valid(t: Tree)
    decreases t, 1
  {
    match t
    case Number(_, digits) => ValidDigits(digits)
    case String(chars) => ValidCharacters(chars)
    case Array(blank, items) => Blanks(blank) && (items != [] ==> blank == "") && ValidItems(items)
    case Object(blank, members) => Blanks(blank) && (members != [] ==> blank == "") && ValidMembers(members)
    case _ => true
  }

  predicate ValidItems(items: seq<Item>)
    decreases items, 0
  {
    items == [] ||
    (Blanks(items[0].before) && Valid(items[0].value) && Blanks(items[0].after) && ValidItems(items[1..]))
  }

  predicate ValidMembers(members: seq<Member>)
    decreases members, 0
  {
    members == [] ||
    var m := members[0];
    && Blanks(m.before) && ValidCharacters(m.key) && Blanks(m.beforeColon) && Blanks(m.afterColon)
    && Valid(m.value) && Blanks(m.after) && ValidMembers(members[1..])
  }

  /** The text of a tree, followed by `rest`. */
  function Spell(t: Tree, rest: string): string
    decreases t, 1
  {
    match t
    case Null => "null" + rest
    case Bool(b) => (if b then "true" else "false") + rest
    case Number(negative, digits) => if negative then "-" + (digits + rest) else digits + rest
    case String(chars) => SpellString(chars, rest)
    case Array(blank, items) => "[" + (if items == [] then blank + ("]" + rest) else SpellItems(items, rest))
    case Object(blank, members) => "{" + (if members == [] then blank + ("}" + rest) else SpellMembers(members, rest))
  }

  function SpellItems(items: seq<Item>, rest: string): string
    requires items != []
    decreases items, 0
  {
    var end := if |items| == 1 then "]" + rest else "," + SpellItems(items[1..], rest);
    items[0].before + Spell(items[0].value, items[0].after + end)
  }

  function SpellMembers(members: seq<Member>, rest: string): string
    requires members != []
    decreases members, 0
  {
    var end := if |members| == 1 then "}" + rest else "," + SpellMembers(members[1..], rest);
    members[0].before + SpellMember(members[0], end)
  }

  /** A member without the blanks before it, followed by `end`. */
  function SpellMember(m: Member, end: string): string
    decreases m, 0
  {
    SpellString(m.key, m.beforeColon + (":" + (m.afterColon + Spell(m.value, m.after + end))))
  }

  /** The value a tree stands for; of two members under one key the later counts. */
  function Meant(t: Tree): Json
    requires Valid(t)
    decreases t, 1
  {
    match t
    case Null => JNull
    case Bool(b) => JBool(b)
    case Number(negative, digits) =>
      var n: int := NatValue(digits);
      JInt(if negative then -n else n)
    case String(chars) => JString(MeantCharacters(chars))
    case Array(_, items) => JArray(MeantItems(items))
    case Object(_, members) => JObject(LastWins(MeantMembers(members)))
  }

  function MeantItems(items: seq<Item>): seq<Json>
    requires ValidItems(items)
    decreases items, 0
  {
    if items == [] then [] else [Meant(items[0].value)] + MeantItems(items[1..])
  }

  function MeantMembers(members: seq<Member>): seq<(string, Json)>
    requires ValidMembers(members)
    decreases members, 0
  {
    if members == [] then [] else
    [(MeantCharacters(members[0].key), Meant(members[0].value))] + MeantMembers(members[1..])
  }

  function LastWins(pairs: seq<(string, Json)>): map<string, Json> {
    if pairs == [] then map[] else
    LastWins(pairs[..|pairs| - 1])[pairs[|pairs| - 1].0 := pairs[|pairs| - 1].1]
  }

  predicate DistinctKeys(pairs: seq<(string, Json)>) {
    forall i, j | 0 <= i < j < |pairs| :: pairs[i].0 != pairs[j].0
  }

  /** No object of the tree, at any depth, has two members under one key. */
  predicate Distinct(t: Tree)
    requires Valid(t)
    decreases t, 1
  {
    match t
    case Array(_, items) => DistinctItems(items)
    case Object(_, members) => DistinctKeys(MeantMembers(members)) && DistinctMembers(members)
    case _ => true
  }

  predicate DistinctItems(items: seq<Item>)
    requires ValidItems(items)
    decreases items, 0
  {
    items == [] || (Distinct(items[0].value) && DistinctItems(items[1..]))
  }

  predicate DistinctMembers(members: seq<Member>)
    requires ValidMembers(members)
    decreases members, 0
  {
    members == [] || (Distinct(members[0].value) && DistinctMembers(members[1..]))
  }

  // ---------------------------------------------------------------- the reader reads every tree

  lemma {:induction false} SkipBlanksOf(blanks: string, rest: string)
    requires Blanks(blanks)
    ensures SkipSpace(blanks + rest) == SkipSpace(rest)
  {
    if blanks == [] {
      assert blanks + rest == rest;
    } else {
      assert (blanks + rest)[1..] == blanks[1..] + rest;
      assert blanks[0] in blanks && forall c | c in blanks[1..] :: c in blanks;
      SkipBlanksOf(blanks[1..], rest);
    }
  }

  lemma ReadHex(digits: string, rest: string)
    requires IsHex4(digits)
    ensures Hex4(digits + rest) == Some(HexNumber(digits)) && (digits + rest)[4..] == rest
  {
    var s := digits + rest;
    assert s[0] == digits[0] && s[1] == digits[1] && s[2] == digits[2] && s[3] == digits[3];
    assert digits[0] in digits && digits[1] in digits && digits[2] in digits && digits[3] in digits;
  }

  lemma ReadPair(high: string, low: string, rest: string)
    requires ValidCharacter(Pair(high, low))
    ensures UnicodeEscape(high + ("\\u" + (low + rest))) == Some((MeantCharacter(Pair(high, low)), rest))
  {
    var tail := "\\u" + (low + rest);
    ReadHex(high, tail);
    ReadHex(low, rest);
    var s := high + tail;
    assert s[4] == '\\' && s[5] == 'u' && s[6..] == low + rest && s[10..] == rest;
  }

  lemma ReadCharacter(f: Character, rest: string)
    requires ValidCharacter(f)
    ensures var s := SpellCharacter(f, rest);
            if s[0] == '\\' then Escape(s[1..]) == Some((MeantCharacter(f), rest))
            else s[0] == MeantCharacter(f) && s[0] != '\"' && s[0] as int >= 0x20 && s[1..] == rest
  {
    var s := SpellCharacter(f, rest);
    match f
    case Plain(c) =>
    case Short(letter) =>
      assert s[1..] == [letter] + rest && ([letter] + rest)[1..] == rest;
    case Hex(digits) =>
      ReadHex(digits, rest);
      assert s[1..] == "u" + (digits + rest) && s[1..][1..] == digits + rest;
    case Pair(high, low) =>
      var body := high + ("\\u" + (low + rest));
      ReadPair(high, low, rest);
      assert s[1..] == "u" + body && s[1..][1..] == body;
  }

  lemma {:induction false} ReadCharacters(fs: Characters, rest: string)
    requires ValidCharacters(fs)
    ensures ReadChars(SpellCharacters(fs, "\"" + rest)) == Some((MeantCharacters(fs), rest))
  {
    if fs == [] {
      assert ("\"" + rest)[1..] == rest;
    } else {
      assert fs[0] in fs && forall f | f in fs[1..] :: f in fs;
      ReadCharacter(fs[0], SpellCharacters(fs[1..], "\"" + rest));
      ReadCharacters(fs[1..], rest);
    }
  }

  lemma ReadSpelledString(fs: Characters, rest: string)
    requires ValidCharacters(fs)
    ensures SpellString(fs, rest)[0] == '\"' && SkipSpace(SpellString(fs, rest)) == SpellString(fs, rest)
    ensures ReadChars(SpellString(fs, rest)[1..]) == Some((MeantCharacters(fs), rest))
  {
    ReadCharacters(fs, rest);
    assert SpellString(fs, rest)[1..] == SpellCharacters(fs, "\"" + rest);
  }

  lemma ReadDigits(digits: string, rest: string)
    requires ValidDigits(digits) && EndsNumber(rest)
    ensures ReadNat(digits + rest) == Some((NatValue(digits), rest))
    ensures (digits + rest)[0] in digits
  {
    var s := digits + rest;
    DigitRunOfPrefix(digits, rest);
    assert s[0] == digits[0];
    var used := if s[0] == '0' then 1 else |digits|;
    assert s[..used] == digits && s[used..] == rest;
  }

  lemma ReadNumber(negative: bool, digits: string, rest: string, unique: bool)
    requires ValidDigits(digits) && EndsNumber(rest)
    ensures Read(Spell(Number(negative, digits), rest), unique) == Some((Meant(Number(negative, digits)), rest))
  {
    var s := Spell(Number(negative, digits), rest);
    ReadDigits(digits, rest);
    if negative {
      assert s[1..] == digits + rest;
    } else {
      assert IsDigit(s[0]);
    }
    ReadNumberCase(s, unique);
  }

  /** No tree's text starts with a blank or a closing bracket. */
  lemma SpellStart(t: Tree, rest: string)
    requires Valid(t)
    ensures var s := Spell(t, rest); s != [] && !IsJsonSpace(s[0]) && s[0] != ']' && s[0] != '}' && SkipSpace(s) == s
  {
    match t
    case Number(negative, digits) =>
      assert digits[0] in digits;
    case _ =>
  }

  lemma EndAfter(after: string, end: string)
    requires Blanks(after) && end != [] && (end[0] == ',' || end[0] == ']' || end[0] == '}')
    ensures EndsNumber(after + end) && SkipSpace(after + end) == end
  {
    SkipBlanksOf(after, end);
    if after != [] {
      assert (after + end)[0] in after;
    } else {
      assert after + end == end;
    }
  }

  /** The reader's answer on a part of a text: the part's value, or a refusal for a repeated key. */
  function Answer<T>(distinct: bool, unique: bool, meant: T, rest: string): Option<(T, string)> {
    if unique && !distinct then None else Some((meant, rest))
  }

  /** Reading the text of any tree gives what it stands for; with `unique`, only if no key is repeated. */
  lemma {:induction false} ReadSpelled(t: Tree, rest: string, unique: bool)
    requires Valid(t) && EndsNumber(rest)
    ensures Read(Spell(t, rest), unique) == Answer(Distinct(t), unique, Meant(t), rest)
    decreases t, 1
  {
    match t
    case Null => ReadWord("null", rest, unique);
    case Bool(b) => ReadWord(if b then "true" else "false", rest, unique);
    case Number(negative, digits) => ReadNumber(negative, digits, rest, unique);
    case String(chars) => ReadSpelledString(chars, rest);
    case Array(blank, items) =>
      if items == [] {
        ReadNothing(blank, rest, unique);
      } else {
        ReadSpelledItems(items, rest, unique);
        ItemsStart(items, rest);
        ReadItemsIn(SpellItems(items, rest), DistinctItems(items), MeantItems(items), rest, unique);
      }
    case Object(blank, members) =>
      if members == [] {
        ReadNothing(blank, rest, unique);
      } else {
        ReadSpelledMembers(members, rest, unique);
        MembersOpen(members, rest);
        ReadMembersIn(SpellMembers(members, rest), DistinctMembers(members), MeantMembers(members), rest, unique);
      }
  }

  lemma ReadNothing(blank: string, rest: string, unique: bool)
    requires Blanks(blank)
    ensures Read("[" + (blank + ("]" + rest)), unique) == Some((JArray([]), rest))
    ensures Read("{" + (blank + ("}" + rest)), unique) == Some((JObject(map[]), rest))
  {
    var a, o := "[" + (blank + ("]" + rest)), "{" + (blank + ("}" + rest));
    SkipBlanksOf(blank, "]" + rest);
    SkipBlanksOf(blank, "}" + rest);
    assert a[1..] == blank + ("]" + rest) && SkipSpace(a[1..]) == "]" + rest && ("]" + rest)[1..] == rest;
    assert o[1..] == blank + ("}" + rest) && SkipSpace(o[1..]) == "}" + rest && ("}" + rest)[1..] == rest;
  }

  lemma ReadItemsIn(body: string, distinct: bool, items: seq<Json>, rest: string, unique: bool)
    requires var s := SkipSpace(body); s != [] && s[0] != ']'
    requires ReadItems(SkipSpace(body), unique) == Answer(distinct, unique, items, rest)
    ensures Read("[" + body, unique) == Answer(distinct, unique, JArray(items), rest)
  {
    assert ("[" + body)[1..] == body;
  }

  lemma ReadMembersIn(body: string, distinct: bool, pairs: seq<(string, Json)>, rest: string, unique: bool)
    requires var s := SkipSpace(body); s != [] && s[0] != '}'
    requires ReadMembers(SkipSpace(body), unique) == Answer(distinct, unique, pairs, rest)
    ensures Read("{" + body, unique)
              == Answer(DistinctKeys(pairs) && distinct, unique, JObject(LastWins(pairs)), rest)
  {
    HookAgrees(pairs, unique);
    assert ("{" + body)[1..] == body;
  }

  lemma ItemsStart(items: seq<Item>, rest: string)
    requires items != [] && ValidItems(items)
    ensures var s := SkipSpace(SpellItems(items, rest)); s != [] && s[0] != ']'
  {
    var end := if |items| == 1 then "]" + rest else "," + SpellItems(items[1..], rest);
    SpellStart(items[0].value, items[0].after + end);
    SkipBlanksOf(items[0].before, Spell(items[0].value, items[0].after + end));
  }

  lemma ReadLastItem(s: string, distinct: bool, v: Json, after: string, rest: string, unique: bool)
    requires Blanks(after) && Read(s, unique) == Answer(distinct, unique, v, after + ("]" + rest))
    ensures ReadItems(s, unique) == Answer(distinct, unique, [v], rest)
  {
    EndAfter(after, "]" + rest);
    assert ("]" + rest)[1..] == rest;
  }

  lemma ReadItemBefore(s: string, distinct: bool, v: Json, after: string, body: string, others: bool, vs: seq<Json>,
                       rest: string, unique: bool)
    requires Blanks(after) && Read(s, unique) == Answer(distinct, unique, v, after + ("," + body))
    requires ReadItems(SkipSpace(body), unique) == Answer(others, unique, vs, rest)
    ensures ReadItems(s, unique) == Answer(distinct && others, unique, [v] + vs, rest)
  {
    EndAfter(after, "," + body);
    assert ("," + body)[1..] == body;
  }

  lemma {:induction false} ReadSpelledItems(items: seq<Item>, rest: string, unique: bool)
    requires items != [] && ValidItems(items)
    ensures ReadItems(SkipSpace(SpellItems(items, rest)), unique)
              == Answer(DistinctItems(items), unique, MeantItems(items), rest)
    decreases items, 0
  {
    var item := items[0];
    var end := if |items| == 1 then "]" + rest else "," + SpellItems(items[1..], rest);
    var s := Spell(item.value, item.after + end);
    SkipBlanksOf(item.before, s);
    SpellStart(item.value, item.after + end);
    EndAfter(item.after, end);
    ReadSpelled(item.value, item.after + end, unique);
    if |items| == 1 {
      assert items[1..] == [] && [Meant(item.value)] + [] == [Meant(item.value)];
      ReadLastItem(s, Distinct(item.value), Meant(item.value), item.after, rest, unique);
    } else {
      ReadSpelledItems(items[1..], rest, unique);
      ReadItemBefore(s, Distinct(item.value), Meant(item.value), item.after, SpellItems(items[1..], rest),
                     DistinctItems(items[1..]), MeantItems(items[1..]), rest, unique);
    }
  }

  lemma MembersOpen(members: seq<Member>, rest: string)
    requires members != [] && ValidMembers(members)
    ensures var s := SkipSpace(SpellMembers(members, rest)); s != [] && s[0] == '\"'
  {
    var m := members[0];
    var end := if |members| == 1 then "}" + rest else "," + SpellMembers(members[1..], rest);
    var value := m.beforeColon + (":" + (m.afterColon + Spell(m.value, m.after + end)));
    ReadSpelledString(m.key, value);
    SkipBlanksOf(m.before, SpellString(m.key, value));
  }

  /** The reader's answer on one member. */
  function MemberAnswer(m: Member, end: string, unique: bool): Option<(string, Json, string)>
    requires ValidMembers([m])
  {
    if unique && !Distinct(m.value) then None else Some((MeantCharacters(m.key), Meant(m.value), end))
  }

  lemma ReadSpelledMember(m: Member, end: string, unique: bool)
    requires ValidMembers([m]) && end != [] && (end[0] == ',' || end[0] == '}')
    requires Read(Spell(m.value, m.after + end), unique)
               == Answer(Distinct(m.value), unique, Meant(m.value), m.after + end)
    ensures ReadMember(SpellMember(m, end), unique) == MemberAnswer(m, end, unique)
  {
    var value := Spell(m.value, m.after + end);
    var colon := ":" + (m.afterColon + value);
    ReadSpelledString(m.key, m.beforeColon + colon);
    SkipBlanksOf(m.beforeColon, colon);
    assert SkipSpace(colon) == colon && colon[1..] == m.afterColon + value;
    SkipBlanksOf(m.afterColon, value);
    SpellStart(m.value, m.after + end);
    EndAfter(m.after, end);
  }

  lemma ReadFinalMember(s: string, m: Member, rest: string, unique: bool)
    requires ValidMembers([m]) && ReadMember(s, unique) == MemberAnswer(m, "}" + rest, unique)
    ensures ReadMembers(s, unique)
              == Answer(Distinct(m.value), unique, [(MeantCharacters(m.key), Meant(m.value))], rest)
  {
    assert ("}" + rest)[1..] == rest;
  }

  lemma ReadMemberBefore(s: string, m: Member, body: string, others: bool, more: seq<(string, Json)>, rest: string,
                         unique: bool)
    requires ValidMembers([m]) && ReadMember(s, unique) == MemberAnswer(m, "," + body, unique)
    requires ReadMembers(SkipSpace(body), unique) == Answer(others, unique, more, rest)
    ensures ReadMembers(s, unique)
              == Answer(Distinct(m.value) && others, unique, [(MeantCharacters(m.key), Meant(m.value))] + more, rest)
  {
    assert ("," + body)[1..] == body;
  }

  lemma {:induction false} ReadSpelledMembers(members: seq<Member>, rest: string, unique: bool)
    requires members != [] && ValidMembers(members)
    ensures ReadMembers(SkipSpace(SpellMembers(members, rest)), unique)
              == Answer(DistinctMembers(members), unique, MeantMembers(members), rest)
    decreases members, 0
  {
    var m := members[0];
    var end := if |members| == 1 then "}" + rest else "," + SpellMembers(members[1..], rest);
    var s := SpellMember(m, end);
    SkipBlanksOf(m.before, s);
    assert SkipSpace(s) == s;
    EndAfter(m.after, end);
    ReadSpelled(m.value, m.after + end, unique);
    assert ValidMembers([m]);
    ReadSpelledMember(m, end, unique);
    var pair := (MeantCharacters(m.key), Meant(m.value));
    if |members| == 1 {
      assert members[1..] == [] && [pair] + [] == [pair];
      ReadFinalMember(s, m, rest, unique);
    } else {
      ReadSpelledMembers(members[1..], rest, unique);
      ReadMemberBefore(s, m, SpellMembers(members[1..], rest), DistinctMembers(members[1..]),
                       MeantMembers(members[1..]), rest, unique);
    }
  }

  lemma {:induction false} HookAgrees(pairs: seq<(string, Json)>, unique: bool)
    ensures FromPairs(pairs, unique) == if unique && !DistinctKeys(pairs) then None else Some(LastWins(pairs))
  {
    if unique {
      UniquePairsExact(pairs);
    }
    if pairs != [] {
      var front := pairs[..|pairs| - 1];
      assert forall i | 0 <= i < |front| :: front[i] == pairs[i];
      HookAgrees(front, unique);
    }
  }

  // ---------------------------------------------------------------- the reader reads nothing else

  lemma {:induction false} SkippedBlanks(s: string) returns (blanks: string)
    ensures Blanks(blanks) && s == blanks + SkipSpace(s)
  {
    if s != [] && IsJsonSpace(s[0]) {
      blanks := SkippedBlanks(s[1..]);
      assert s == [s[0]] + s[1..];
      blanks := [s[0]] + blanks;
    } else {
      blanks := [];
    }
  }

  lemma HexSpelled(s: string)
    requires Hex4(s).Some?
    ensures IsHex4(s[..4]) && Hex4(s) == Some(HexNumber(s[..4])) && s == s[..4] + s[4..]
  {
    var d := s[..4];
    assert d[0] == s[0] && d[1] == s[1] && d[2] == s[2] && d[3] == s[3];
    assert HexValue(s[0]).Some? && HexValue(s[1]).Some? && HexValue(s[2]).Some? && HexValue(s[3]).Some?;
    forall c | c in d ensures HexValue(c).Some? {
      var i :| 0 <= i < 4 && d[i] == c;
    }
  }

  /** Whatever an escape reads is the spelling of one character. */
  lemma EscapeSpelled(s: string) returns (f: Character)
    requires Escape(s).Some?
    ensures ValidCharacter(f) && MeantCharacter(f) == Escape(s).value.0
    ensures "\\" + s == SpellCharacter(f, Escape(s).value.1)
  {
    assert s == [s[0]] + s[1..];
    if s[0] == 'u' {
      f := UnicodeSpelled(s[1..]);
    } else {
      f := Short(s[0]);
    }
  }

  lemma UnicodeSpelled(s: string) returns (f: Character)
    requires UnicodeEscape(s).Some?
    ensures ValidCharacter(f) && MeantCharacter(f) == UnicodeEscape(s).value.0
    ensures "\\" + ("u" + s) == SpellCharacter(f, UnicodeEscape(s).value.1)
  {
    HexSpelled(s);
    if 0xD800 <= Hex4(s).value < 0xDC00 {
      HexSpelled(s[6..]);
      f := Pair(s[..4], s[6..][..4]);
      assert s[4..] == "\\u" + s[6..] && s[6..][4..] == s[10..];
    } else {
      f := Hex(s[..4]);
    }
  }

  lemma {:induction false} CharactersSpelled(s: string) returns (fs: Characters)
    requires ReadChars(s).Some?
    ensures ValidCharacters(fs) && MeantCharacters(fs) == ReadChars(s).value.0
    ensures s == SpellCharacters(fs, "\"" + ReadChars(s).value.1)
    decreases |s|
  {
    assert s == [s[0]] + s[1..];
    if s[0] == '\"' {
      fs := [];
    } else {
      var f, rest := Plain(s[0]), s[1..];
      if s[0] == '\\' {
        f := EscapeSpelled(s[1..]);
        rest := Escape(s[1..]).value.1;
      }
      var more := CharactersSpelled(rest);
      fs := [f] + more;
      assert fs[1..] == more;
    }
  }

  lemma DigitsSpelled(s: string) returns (digits: string)
    requires ReadNat(s).Some?
    ensures ValidDigits(digits) && NatValue(digits) == ReadNat(s).value.0 && s == digits + ReadNat(s).value.1
  {
    var k := DigitRun(s);
    digits := if s[0] == '0' then s[..1] else s[..k];
    assert s[..1] == s[..k][..1];
  }

  lemma NumberSpelled(s: string) returns (t: Tree)
    requires ReadInt(s).Some?
    ensures Valid(t) && Distinct(t) && Meant(t) == JInt(ReadInt(s).value.0) && s == Spell(t, ReadInt(s).value.1)
  {
    if s[0] == '-' {
      var digits := DigitsSpelled(s[1..]);
      t := Number(true, digits);
      assert s == "-" + s[1..];
    } else {
      var digits := DigitsSpelled(s);
      t := Number(false, digits);
    }
  }

  predicate Spelled(s: string, t: Tree, unique: bool)
    requires Read(s, unique).Some?
  {
    && Valid(t) && (unique ==> Distinct(t))
    && Meant(t) == Read(s, unique).value.0 && s == Spell(t, Read(s, unique).value.1)
  }

  /** Whatever the reader takes from a text is the text of a tree that stands for the value read. */
  lemma {:induction false} ReadIsSpelled(s: string, unique: bool) returns (t: Tree)
    requires Read(s, unique).Some?
    ensures Spelled(s, t, unique)
    decreases |s|, 1
  {
    assert s == [s[0]] + s[1..];
    if s[0] == '\"' {
      var fs := CharactersSpelled(s[1..]);
      t := String(fs);
    } else if s[0] == '{' {
      t := ObjectSpelled(s, unique);
    } else if s[0] == '[' {
      t := ArraySpelled(s, unique);
    } else if "null" <= s {
      t := Null;
    } else if "true" <= s || "false" <= s {
      t := Bool("true" <= s);
    } else {
      t := NumberSpelled(s);
    }
  }

  lemma {:induction false} ArraySpelled(s: string, unique: bool) returns (t: Tree)
    requires Read(s, unique).Some? && s[0] == '['
    ensures Spelled(s, t, unique)
    decreases |s|, 0
  {
    assert s == "[" + s[1..];
    var blanks := SkippedBlanks(s[1..]);
    var body := SkipSpace(s[1..]);
    if body != [] && body[0] == ']' {
      t := Array(blanks, []);
      SpelledNoItems(s, blanks, body, unique);
    } else {
      var items := ItemsSpelled(blanks, body, unique);
      t := Array("", items);
      SpelledArray(s, body, items, unique);
    }
  }

  lemma SpelledNoItems(s: string, blanks: string, body: string, unique: bool)
    requires s != [] && s[0] == '[' && body == SkipSpace(s[1..]) && body != [] && body[0] == ']'
    requires Blanks(blanks) && s[1..] == blanks + body
    ensures Spelled(s, Array(blanks, []), unique)
  {
    assert s == "[" + s[1..] && body == "]" + body[1..];
  }

  lemma SpelledArray(s: string, body: string, items: seq<Item>, unique: bool)
    requires Read(s, unique).Some? && s[0] == '[' && body == SkipSpace(s[1..]) && (body == [] || body[0] != ']')
    requires ReadItems(body, unique).Some? && items != [] && ValidItems(items) && (unique ==> DistinctItems(items))
    requires MeantItems(items) == ReadItems(body, unique).value.0
    requires s == "[" + SpellItems(items, ReadItems(body, unique).value.1)
    ensures Spelled(s, Array("", items), unique)
  {
  }

  lemma {:induction false} ItemsSpelled(before: string, s: string, unique: bool) returns (items: seq<Item>)
    requires Blanks(before) && ReadItems(s, unique).Some?
    ensures items != [] && ValidItems(items) && (unique ==> DistinctItems(items))
    ensures MeantItems(items) == ReadItems(s, unique).value.0
    ensures before + s == SpellItems(items, ReadItems(s, unique).value.1)
    decreases |s|, 2
  {
    var t := ReadIsSpelled(s, unique);
    var rest := Read(s, unique).value.1;
    var after := SkippedBlanks(rest);
    var end := SkipSpace(rest);
    assert end == [end[0]] + end[1..];
    var item := Item(before, t, after);
    if end[0] == ']' {
      items := [item];
    } else {
      var blanks := SkippedBlanks(end[1..]);
      var more := ItemsSpelled(blanks, SkipSpace(end[1..]), unique);
      items := [item] + more;
      assert items[1..] == more;
    }
  }

  lemma {:induction false} ObjectSpelled(s: string, unique: bool) returns (t: Tree)
    requires Read(s, unique).Some? && s[0] == '{'
    ensures Spelled(s, t, unique)
    decreases |s|, 0
  {
    assert s == "{" + s[1..];
    var blanks := SkippedBlanks(s[1..]);
    var body := SkipSpace(s[1..]);
    if body != [] && body[0] == '}' {
      t := Object(blanks, []);
      SpelledEmpty(s, blanks, body, unique);
    } else {
      var members := MembersSpelled(blanks, body, unique);
      t := Object("", members);
      SpelledObject(s, body, members, unique);
    }
  }

  lemma SpelledEmpty(s: string, blanks: string, body: string, unique: bool)
    requires s != [] && s[0] == '{' && body == SkipSpace(s[1..]) && body != [] && body[0] == '}'
    requires Blanks(blanks) && s[1..] == blanks + body
    ensures Spelled(s, Object(blanks, []), unique)
  {
    assert s == "{" + s[1..] && body == "}" + body[1..];
  }

  lemma SpelledObject(s: string, body: string, members: seq<Member>, unique: bool)
    requires Read(s, unique).Some? && s[0] == '{' && body == SkipSpace(s[1..]) && (body == [] || body[0] != '}')
    requires ReadMembers(body, unique).Some? && members != [] && ValidMembers(members)
    requires unique ==> DistinctMembers(members)
    requires MeantMembers(members) == ReadMembers(body, unique).value.0
    requires s == "{" + SpellMembers(members, ReadMembers(body, unique).value.1)
    ensures Spelled(s, Object("", members), unique)
  {
    HookAgrees(MeantMembers(members), unique);
  }

  lemma {:induction false} MemberSpelled(before: string, s: string, unique: bool) returns (m: Member)
    requires Blanks(before) && ReadMember(s, unique).Some?
    ensures m.before == before && ValidMembers([m]) && (unique ==> Distinct(m.value))
    ensures var (key, v, end) := ReadMember(s, unique).value;
            MeantCharacters(m.key) == key && Meant(m.value) == v && s == SpellMember(m, end)
    decreases |s|, 0
  {
    assert s == "\"" + s[1..];
    var key := CharactersSpelled(s[1..]);
    var afterKey := ReadChars(s[1..]).value.1;
    var beforeColon := SkippedBlanks(afterKey);
    var colon := SkipSpace(afterKey);
    assert colon == ":" + colon[1..];
    var afterColon := SkippedBlanks(colon[1..]);
    var value := SkipSpace(colon[1..]);
    var t := ReadIsSpelled(value, unique);
    var after := SkippedBlanks(Read(value, unique).value.1);
    m := Member(before, key, beforeColon, afterColon, t, after);
  }

  lemma {:induction false} MembersSpelled(before: string, s: string, unique: bool) returns (members: seq<Member>)
    requires Blanks(before) && ReadMembers(s, unique).Some?
    ensures members != [] && ValidMembers(members) && (unique ==> DistinctMembers(members))
    ensures MeantMembers(members) == ReadMembers(s, unique).value.0
    ensures before + s == SpellMembers(members, ReadMembers(s, unique).value.1)
    decreases |s|, 3
  {
    var m := MemberSpelled(before, s, unique);
    var end := ReadMember(s, unique).value.2;
    if end[0] == '}' {
      members := [m];
      assert end == "}" + end[1..];
      OnlyMember(m);
    } else {
      assert end == "," + end[1..];
      var blanks := SkippedBlanks(end[1..]);
      var more := MembersSpelled(blanks, SkipSpace(end[1..]), unique);
      members := [m] + more;
      OneMoreMember(m, more);
    }
  }

  lemma OnlyMember(m: Member)
    requires ValidMembers([m])
    ensures MeantMembers([m]) == [(MeantCharacters(m.key), Meant(m.value))]
    ensures DistinctMembers([m]) <==> Distinct(m.value)
    ensures forall rest :: SpellMembers([m], rest) == m.before + SpellMember(m, "}" + rest)
  {
    assert [m][1..] == [];
  }

  lemma OneMoreMember(m: Member, more: seq<Member>)
    requires ValidMembers([m]) && more != [] && ValidMembers(more)
    ensures ValidMembers([m] + more)
    ensures MeantMembers([m] + more) == [(MeantCharacters(m.key), Meant(m.value))] + MeantMembers(more)
    ensures DistinctMembers([m] + more) <==> Distinct(m.value) && DistinctMembers(more)
    ensures forall rest :: SpellMembers([m] + more, rest) == m.before + SpellMember(m, "," + SpellMembers(more, rest))
  {
    assert ([m] + more)[1..] == more;
  }

  // ---------------------------------------------------------------- the texts of a value

  /** `text` is a JSON text of the tree `t`: the tree's own text with blanks around it. */
  ghost predicate TextOf(text: string, t: Tree) {
    Valid(t) && exists a: string, b: string :: Blanks(a) && Blanks(b) && text == a + Spell(t, b)
  }

  lemma LoadsSpelled(a: string, t: Tree, b: string, unique: bool)
    requires Blanks(a) && Valid(t) && Blanks(b)
    ensures Loads(a + Spell(t, b), unique) == if unique && !Distinct(t) then None else Some(Meant(t))
  {
    SkipBlanksOf(a, Spell(t, b));
    SpellStart(t, b);
    if b != [] {
      assert b[0] in b;
    }
    ReadSpelled(t, b, unique);
    SkipBlanksOf(b, []);
    assert b + [] == b;
  }

  /**
   `json.loads` succeeds exactly on the texts of trees, with the value the tree stands for; with the duplicate
   hook, exactly on the texts of trees without a repeated key.
   */
  lemma LoadsExactly(text: string, v: Json, unique: bool)
    ensures Loads(text, unique) == Some(v) <==>
              exists t :: TextOf(text, t) && Meant(t) == v && (unique ==> Distinct(t))
  {
    if Loads(text, unique) == Some(v) {
      var a := SkippedBlanks(text);
      var s := SkipSpace(text);
      var t := ReadIsSpelled(s, unique);
      var rest := Read(s, unique).value.1;
      var b := SkippedBlanks(rest);
      assert b == rest && text == a + Spell(t, b);
      assert TextOf(text, t);
    }
    if t :| TextOf(text, t) && Meant(t) == v && (unique ==> Distinct(t)) {
      var a: string, b: string :| Blanks(a) && Blanks(b) && text == a + Spell(t, b);
      LoadsSpelled(a, t, b, unique);
    }
  }

  // ---------------------------------------------------------------- the trees that use no choice

  /** Section 7's shortest form: an escape only where one is needed, the short one if there is one, lower case. */
  predicate CanonicalCharacter(f: Character)
    requires ValidCharacter(f)
  {
    match f
    case Plain(_) => true
    case Short(letter) => letter != '/'
    case Hex(digits) =>
      && HexNumber(digits) < 0x20 && HexNumber(digits) !in {0x08, 0x09, 0x0A, 0x0C, 0x0D}
      && forall c | c in digits :: !('A' <= c <= 'F')
    case Pair(_, _) => false
  }

  predicate CanonicalCharacters(fs: Characters)
    requires ValidCharacters(fs)
  {
    forall f | f in fs :: CanonicalCharacter(f)
  }

  predicate AscendingKeys(pairs: seq<(string, Json)>) {
    forall i, j | 0 <= i < j < |pairs| :: Less(pairs[i].0, pairs[j].0)
  }

  /** No blank, no needless escape, no negative zero, and the members of every object in ascending order of keys. */
  predicate Canonical(t: Tree)
    requires Valid(t)
    decreases t, 1
  {
    match t
    case Number(negative, digits) => !(negative && digits == "0")
    case String(chars) => CanonicalCharacters(chars)
    case Array(blank, items) => blank == "" && CanonicalItems(items)
    case Object(blank, members) => blank == "" && AscendingKeys(MeantMembers(members)) && CanonicalMembers(members)
    case _ => true
  }

  predicate CanonicalItems(items: seq<Item>)
    requires ValidItems(items)
    decreases items, 0
  {
    items == []
    || (items[0].before == "" == items[0].after && Canonical(items[0].value) && CanonicalItems(items[1..]))
  }

  predicate CanonicalMembers(members: seq<Member>)
    requires ValidMembers(members)
    decreases members, 0
  {
    members == [] || (CanonicalMember(members[0]) && CanonicalMembers(members[1..]))
  }

  predicate CanonicalMember(m: Member)
    requires ValidMembers([m])
    decreases m, 0
  {
    && m.before == "" == m.beforeColon && m.afterColon == "" == m.after
    && CanonicalCharacters(m.key) && Canonical(m.value)
  }

  lemma CharacterRest(f: Character, rest: string)
    ensures SpellCharacter(f, rest) == SpellCharacter(f, "") + rest
  {
  }

  lemma LowerCase(c: char)
    requires HexValue(c).Some?
    ensures HEX[HexValue(c).value] == c <==> !('A' <= c <= 'F')
  {
    HexValueExact(c, HexValue(c).value);
  }

  /** A control character's four digits, against the digits the printer writes. */
  lemma ControlDigits(digits: string)
    requires IsHex4(digits) && HexNumber(digits) < 0x20
    ensures var n := HexNumber(digits);
            digits == "00" + [HEX[n / 16], HEX[n % 16]] <==> forall c | c in digits :: !('A' <= c <= 'F')
  {
    var n := HexNumber(digits);
    assert digits[0] in digits && digits[1] in digits && digits[2] in digits && digits[3] in digits;
    HexValueExact(digits[0], 0);
    HexValueExact(digits[1], 0);
    LowerCase(digits[2]);
    LowerCase(digits[3]);
    assert HexValue(digits[0]) == Some(0) && HexValue(digits[1]) == Some(0);
    assert HexValue(digits[2]) == Some(n / 16) && HexValue(digits[3]) == Some(n % 16);
    var shown := "00" + [HEX[n / 16], HEX[n % 16]];
    assert shown[0] == '0' && shown[1] == '0' && shown[2] == HEX[n / 16] && shown[3] == HEX[n % 16];
    assert digits == shown <==> digits[2] == shown[2] && digits[3] == shown[3];
  }

  lemma HexCharacter(digits: string)
    requires ValidCharacter(Hex(digits))
    ensures "\\u" + digits == EscapeChar(MeantCharacter(Hex(digits))) <==> CanonicalCharacter(Hex(digits))
  {
    var n := HexNumber(digits);
    assert |"\\u" + digits| == 6;
    if n < 0x20 && n !in {0x08, 0x09, 0x0A, 0x0C, 0x0D} {
      ControlDigits(digits);
      var tail := [HEX[n / 16], HEX[n % 16]];
      assert "\\u00" + tail == "\\u" + ("00" + tail);
      assert ("\\u" + digits)[2..] == digits && ("\\u" + ("00" + tail))[2..] == "00" + tail;
    }
  }

  lemma CharacterExact(f: Character)
    requires ValidCharacter(f)
    ensures SpellCharacter(f, "") == EscapeChar(MeantCharacter(f)) <==> CanonicalCharacter(f)
  {
    match f
    case Hex(digits) =>
      HexCharacter(digits);
      assert SpellCharacter(f, "") == "\\u" + digits;
    case _ =>
  }

  /** Two texts of one value that differ only in what follows have the same continuation. */
  lemma SameRest(t: Tree, a: string, b: string)
    requires Valid(t) && EndsNumber(a) && EndsNumber(b) && Spell(t, a) == Print(Meant(t)) + b
    ensures a == b
  {
    ReadSpelled(t, a, false);
    ReadPrint(Meant(t), b, false);
  }

  lemma SameCharacterRest(f: Character, a: string, b: string)
    requires ValidCharacter(f) && SpellCharacter(f, a) == EscapeChar(MeantCharacter(f)) + b
    ensures a == b
  {
    ReadCharacter(f, a);
    EscapeCharReadsBack(MeantCharacter(f), b);
  }

  lemma FirstCharacter(f: Character, a: string, b: string)
    requires ValidCharacter(f)
    ensures SpellCharacter(f, a) == EscapeChar(MeantCharacter(f)) + b <==> CanonicalCharacter(f) && a == b
  {
    CharacterExact(f);
    CharacterRest(f, a);
    if SpellCharacter(f, a) == EscapeChar(MeantCharacter(f)) + b {
      SameCharacterRest(f, a, b);
      SameEnd(SpellCharacter(f, ""), EscapeChar(MeantCharacter(f)), a);
    }
  }

  lemma EscapedText(c: char, s: string, rest: string)
    ensures EscapeText([c] + s) + rest == EscapeChar(c) + (EscapeText(s) + rest)
  {
    assert ([c] + s)[1..] == s;
    Associate(EscapeChar(c), EscapeText(s), rest);
  }

  lemma {:induction false} CharactersExact(fs: Characters, rest: string)
    requires ValidCharacters(fs)
    ensures SpellCharacters(fs, rest) == EscapeText(MeantCharacters(fs)) + rest <==> CanonicalCharacters(fs)
  {
    if fs == [] {
      assert EscapeText([]) + rest == rest;
    } else {
      var tail := fs[1..];
      assert fs[0] in fs && forall g :: g in fs <==> g == fs[0] || g in tail;
      CharactersExact(tail, rest);
      EscapedText(MeantCharacter(fs[0]), MeantCharacters(tail), rest);
      FirstCharacter(fs[0], SpellCharacters(tail, rest), EscapeText(MeantCharacters(tail)) + rest);
    }
  }

  lemma SameEnd(a: string, b: string, rest: string)
    ensures a + rest == b + rest <==> a == b
  {
    if a + rest == b + rest {
      assert (a + rest)[..|a|] == a && (b + rest)[..|b|] == b;
    }
  }

  lemma NextDigit(n: nat, c: char)
    requires n > 0 && IsDigit(c)
    ensures NatText(n * 10 + DigitValue(c)) == NatText(n) + [c]
  {
    assert (n * 10 + DigitValue(c)) / 10 == n;
  }

  lemma FrontDigits(digits: string)
    requires ValidDigits(digits) && |digits| > 1
    ensures ValidDigits(digits[..|digits| - 1]) && digits[0] != '0'
  {
    var front := digits[..|digits| - 1];
    assert front[0] == digits[0] && forall c | c in front :: c in digits;
  }

  lemma {:induction false} DigitsExact(digits: string)
    requires ValidDigits(digits)
    ensures NatText(NatValue(digits)) == digits
    decreases |digits|
  {
    var front, last := digits[..|digits| - 1], digits[|digits| - 1];
    assert digits == front + [last] && last in digits;
    if front == [] {
      assert NatValue(front) == 0;
    } else {
      FrontDigits(digits);
      DigitsExact(front);
      assert NatText(0)[0] == '0' && front[0] == digits[0];
      NextDigit(NatValue(front), last);
    }
  }

  lemma NumberExact(negative: bool, digits: string, rest: string)
    requires ValidDigits(digits)
    ensures var t := Number(negative, digits); Spell(t, rest) == Print(Meant(t)) + rest <==> Canonical(t)
  {
    DigitsExact(digits);
    if digits == "0" {
      assert digits[..0] == "" && NatValue("") == 0 && NatValue(digits) == 0;
      assert negative ==> Spell(Number(negative, digits), rest)[0] == '-';
    } else if negative {
      assert NatText(0) == "0";
      assert "-" + (digits + rest) == "-" + digits + rest;
    }
  }

  /** A value with blanks around it, inside an array or an object, against its printed form. */
  lemma ValueExact(before: string, t: Tree, after: string, end: string, shown: string)
    requires Blanks(before) && Valid(t) && Blanks(after)
    requires end != [] && (end[0] == ',' || end[0] == ']' || end[0] == '}')
    requires shown != [] && (shown[0] == ',' || shown[0] == ']' || shown[0] == '}')
    requires Spell(t, shown) == Print(Meant(t)) + shown <==> Canonical(t)
    ensures before + Spell(t, after + end) == Print(Meant(t)) + shown <==>
              before == "" && after == "" && Canonical(t) && end == shown
  {
    var text, shownText := Spell(t, after + end), Print(Meant(t)) + shown;
    PrintStart(Meant(t), shown);
    EndAfter(after, end);
    if before + text == shownText {
      NothingBefore(before, text, shownText);
      SameRest(t, after + end, shown);
      NothingBefore(after, end, shown);
    }
    if before == "" && after == "" {
      assert before + text == text && after + end == end;
    }
  }

  lemma NothingBefore(blanks: string, a: string, b: string)
    requires Blanks(blanks) && blanks + a == b && b != [] && !IsJsonSpace(b[0])
    ensures blanks == "" && a == b
  {
    FirstBlank(blanks, a);
    assert "" + a == a;
  }

  lemma FirstBlank(blanks: string, a: string)
    requires Blanks(blanks)
    ensures blanks != "" ==> IsJsonSpace((blanks + a)[0])
  {
    assert blanks != "" ==> (blanks + a)[0] in blanks;
  }

  lemma SameStart(open: string, a: string, b: string)
    ensures open + a == open + b <==> a == b
  {
    assert (open + a)[|open|..] == a && (open + b)[|open|..] == b;
  }

  /** A tree's text is the canonical text of its value exactly when the tree uses none of its choices. */
  lemma {:induction false} SpellExact(t: Tree, rest: string)
    requires Valid(t) && Distinct(t) && EndsNumber(rest)
    ensures Spell(t, rest) == Print(Meant(t)) + rest <==> Canonical(t)
    decreases t, 1
  {
    match t
    case Number(negative, digits) => NumberExact(negative, digits, rest);
    case String(chars) => StringExact(chars, rest);
    case Array(blank, items) =>
      if items == [] {
        EmptyExact("[", blank, "]", rest);
      } else {
        ArrayExact(items, rest);
      }
    case Object(blank, members) =>
      if members == [] {
        EmptyExact("{", blank, "}", rest);
      } else {
        ObjectExact(members, rest);
      }
    case _ =>
  }

  lemma QuotedRest(s: string, rest: string)
    ensures Quote(s) + rest == "\"" + (EscapeText(s) + ("\"" + rest))
  {
    Associate("\"", EscapeText(s), "\"");
    Associate("\"", EscapeText(s) + "\"", rest);
    Associate(EscapeText(s), "\"", rest);
  }

  lemma StringExact(chars: Characters, rest: string)
    requires ValidCharacters(chars)
    ensures SpellString(chars, rest) == Quote(MeantCharacters(chars)) + rest <==> CanonicalCharacters(chars)
  {
    CharactersExact(chars, "\"" + rest);
    var shown := EscapeText(MeantCharacters(chars)) + ("\"" + rest);
    QuotedRest(MeantCharacters(chars), rest);
    SameStart("\"", SpellCharacters(chars, "\"" + rest), shown);
  }

  lemma EmptyExact(open: string, blank: string, close: string, rest: string)
    ensures open + (blank + (close + rest)) == open + close + rest <==> blank == ""
  {
    assert |open + (blank + (close + rest))| == |open| + |blank| + |close| + |rest|;
    if blank == "" {
      assert open + (blank + (close + rest)) == open + close + rest;
    }
  }

  lemma {:induction false} ArrayExact(items: seq<Item>, rest: string)
    requires items != [] && ValidItems(items) && DistinctItems(items)
    ensures var t := Array("", items); Spell(t, rest) == Print(Meant(t)) + rest <==> Canonical(t)
    decreases items, 1
  {
    ItemsExact(items, rest);
    var shown := PrintItems(MeantItems(items));
    Associate("[", shown, rest);
    SameStart("[", SpellItems(items, rest), shown + rest);
  }

  lemma {:induction false} ItemsExact(items: seq<Item>, rest: string)
    requires items != [] && ValidItems(items) && DistinctItems(items)
    ensures SpellItems(items, rest) == PrintItems(MeantItems(items)) + rest <==> CanonicalItems(items)
    decreases items, 0
  {
    var item, values := items[0], MeantItems(items);
    assert values[0] == Meant(item.value) && values[1..] == MeantItems(items[1..]);
    var end, shown := "]" + rest, "]" + rest;
    if |items| > 1 {
      ItemsExact(items[1..], rest);
      end, shown := "," + SpellItems(items[1..], rest), "," + (PrintItems(values[1..]) + rest);
      assert end[1..] == SpellItems(items[1..], rest) && shown[1..] == PrintItems(values[1..]) + rest;
    }
    SpellExact(item.value, shown);
    ValueExact(item.before, item.value, item.after, end, shown);
    PrintedItems(values, rest);
  }

  lemma PrintedItems(values: seq<Json>, rest: string)
    requires values != []
    ensures PrintItems(values) + rest ==
              Print(values[0]) + (if |values| == 1 then "]" + rest else "," + (PrintItems(values[1..]) + rest))
  {
    Associate(Print(values[0]), if |values| == 1 then "]" else "," + PrintItems(values[1..]), rest);
    if |values| > 1 {
      Associate(",", PrintItems(values[1..]), rest);
    }
  }

  /** A member against its printed form, given the two for its value. */
  lemma MemberExact(m: Member, end: string, shown: string)
    requires ValidMembers([m])
    requires end != [] && (end[0] == ',' || end[0] == '}') && shown != [] && (shown[0] == ',' || shown[0] == '}')
    requires Spell(m.value, shown) == Print(Meant(m.value)) + shown <==> Canonical(m.value)
    ensures m.before + SpellMember(m, end)
              == Quote(MeantCharacters(m.key)) + ":" + (Print(Meant(m.value)) + shown)
            <==> CanonicalMember(m) && end == shown
  {
    var key := MeantCharacters(m.key);
    var value, printed := m.afterColon + Spell(m.value, m.after + end), Print(Meant(m.value)) + shown;
    var colon := m.beforeColon + (":" + value);
    ValueExact(m.afterColon, m.value, m.after, end, shown);
    StringExact(m.key, ":" + printed);
    assert Quote(key) + ":" + printed == Quote(key) + (":" + printed);
    if m.before + SpellString(m.key, colon) == Quote(key) + (":" + printed) {
      NothingBefore(m.before, SpellString(m.key, colon), Quote(key) + (":" + printed));
      SameKeyRest(m.key, colon, ":" + printed);
      NothingBefore(m.beforeColon, ":" + value, ":" + printed);
      assert (":" + value)[1..] == value && (":" + printed)[1..] == printed;
    }
    if CanonicalMember(m) && end == shown {
      assert m.before + SpellString(m.key, colon) == SpellString(m.key, colon) && colon == ":" + value;
    }
  }

  lemma SameKeyRest(key: Characters, a: string, b: string)
    requires ValidCharacters(key) && SpellString(key, a) == Quote(MeantCharacters(key)) + b
    ensures a == b
  {
    ReadSpelledString(key, a);
    ReadQuoted(MeantCharacters(key), b);
  }

  lemma ReadQuoted(s: string, rest: string)
    ensures ReadChars((Quote(s) + rest)[1..]) == Some((s, rest))
  {
    CharsReadBack(s, rest);
    assert (Quote(s) + rest)[1..] == EscapeText(s) + "\"" + rest;
  }

  function Names(pairs: seq<(string, Json)>): seq<string> {
    seq(|pairs|, i requires 0 <= i < |pairs| => pairs[i].0)
  }

  predicate Holds(fields: map<string, Json>, pairs: seq<(string, Json)>) {
    forall p | p in pairs :: p.0 in fields && fields[p.0] == p.1
  }

  lemma {:induction false} MembersExact(members: seq<Member>, v: Json, rest: string)
    requires members != [] && ValidMembers(members) && DistinctMembers(members)
    requires v.JObject? && Holds(v.fields, MeantMembers(members))
    requires var names := Names(MeantMembers(members)); names != [] && forall k | k in names :: k in v.fields
    ensures SpellMembers(members, rest) == PrintMembers(v, Names(MeantMembers(members))) + rest <==>
              CanonicalMembers(members)
    decreases members, 0
  {
    var m, pairs := members[0], MeantMembers(members);
    var names := Names(pairs);
    assert pairs[0] in pairs && names[1..] == Names(pairs[1..]) && pairs[1..] == MeantMembers(members[1..]);
    assert |pairs| == 1 + |MeantMembers(members[1..])|;
    assert names[0] == MeantCharacters(m.key) && v.fields[names[0]] == Meant(m.value);
    var end, shown := "}" + rest, "}" + rest;
    if |members| > 1 {
      assert forall p | p in pairs[1..] :: p in pairs;
      assert forall k | k in names[1..] :: k in names;
      assert |pairs[1..]| > 0;
      MembersExact(members[1..], v, rest);
      end, shown := "," + SpellMembers(members[1..], rest), "," + (PrintMembers(v, names[1..]) + rest);
      assert end[1..] == SpellMembers(members[1..], rest) && shown[1..] == PrintMembers(v, names[1..]) + rest;
    }
    SpellExact(m.value, shown);
    assert ValidMembers([m]);
    MemberExact(m, end, shown);
    MemberShape(v, names, rest);
  }

  lemma DistinctHold(pairs: seq<(string, Json)>)
    requires DistinctKeys(pairs)
    ensures Holds(LastWins(pairs), pairs)
    ensures forall k :: k in LastWins(pairs) <==> k in Names(pairs)
  {
    HookAgrees(pairs, true);
    UniquePairsExact(pairs);
    var m, names := LastWins(pairs), Names(pairs);
    forall p | p in pairs ensures p.0 in m && m[p.0] == p.1 {
      var i :| 0 <= i < |pairs| && pairs[i] == p;
    }
    forall k ensures k in m <==> k in names {
      if k in names {
        var i :| 0 <= i < |names| && names[i] == k;
        assert pairs[i].0 in m;
      }
      if k in m {
        var i :| 0 <= i < |pairs| && pairs[i].0 == k;
        assert names[i] == k;
      }
    }
  }

  lemma AscendingNames(pairs: seq<(string, Json)>, keys: set<string>)
    requires (forall k :: k in Names(pairs) <==> k in keys) && AscendingKeys(pairs)
    ensures Names(pairs) == Sorted(keys)
  {
    AscendingUnique(Names(pairs), Sorted(keys));
  }

  /** Only members in the order of the keys print as the canonical members, as the reader shows. */
  lemma PrintedOrder(members: seq<Member>, v: Json, rest: string)
    requires members != [] && ValidMembers(members) && v.JObject? && Sorted(v.fields.Keys) != []
    requires SpellMembers(members, rest) == PrintMembers(v, Sorted(v.fields.Keys)) + rest
    ensures Names(MeantMembers(members)) == Sorted(v.fields.Keys)
  {
    var sorted := Sorted(v.fields.Keys);
    ReadSpelledMembers(members, rest, false);
    MembersStart(v, sorted, rest);
    ReadPrintMembers(v, sorted, rest, false);
    assert MeantMembers(members) == PairsOf(v, sorted);
    assert Names(PairsOf(v, sorted)) == sorted;
  }

  lemma {:induction false} OrderExact(members: seq<Member>, v: Json, rest: string)
    requires members != [] && ValidMembers(members) && DistinctMembers(members)
    requires v.JObject? && Sorted(v.fields.Keys) != [] && Holds(v.fields, MeantMembers(members))
    requires forall k :: k in Names(MeantMembers(members)) <==> k in v.fields
    ensures SpellMembers(members, rest) == PrintMembers(v, Sorted(v.fields.Keys)) + rest <==>
              AscendingKeys(MeantMembers(members)) && CanonicalMembers(members)
    decreases members, 1
  {
    MembersExact(members, v, rest);
    if AscendingKeys(MeantMembers(members)) {
      AscendingNames(MeantMembers(members), v.fields.Keys);
    }
    if SpellMembers(members, rest) == PrintMembers(v, Sorted(v.fields.Keys)) + rest {
      PrintedOrder(members, v, rest);
    }
    SortedNames(MeantMembers(members), Sorted(v.fields.Keys));
  }

  lemma {:induction false} SpelledMembers(members: seq<Member>, v: Json, rest: string)
    requires members != [] && ValidMembers(members) && DistinctMembers(members)
    requires DistinctKeys(MeantMembers(members)) && v == JObject(LastWins(MeantMembers(members)))
    ensures v.fields != map[] && Sorted(v.fields.Keys) != []
    ensures SpellMembers(members, rest) == PrintMembers(v, Sorted(v.fields.Keys)) + rest <==>
              AscendingKeys(MeantMembers(members)) && CanonicalMembers(members)
    decreases members, 2
  {
    DistinctHold(MeantMembers(members));
    NamedFields(MeantMembers(members));
    OrderExact(members, v, rest);
  }

  lemma {:induction false} ObjectExact(members: seq<Member>, rest: string)
    requires members != [] && ValidMembers(members) && DistinctMembers(members)
    requires DistinctKeys(MeantMembers(members))
    ensures var t := Object("", members); Spell(t, rest) == Print(Meant(t)) + rest <==> Canonical(t)
    decreases members, 3
  {
    var t, v := Object("", members), JObject(LastWins(MeantMembers(members)));
    SpelledMembers(members, v, rest);
    PrintedObject(v, rest);
    SameStart("{", SpellMembers(members, rest), PrintMembers(v, Sorted(v.fields.Keys)) + rest);
    assert Meant(t) == v && Spell(t, rest) == "{" + SpellMembers(members, rest);
  }

  lemma PrintedObject(v: Json, rest: string)
    requires v.JObject? && v.fields != map[] && Sorted(v.fields.Keys) != []
    ensures Print(v) + rest == "{" + (PrintMembers(v, Sorted(v.fields.Keys)) + rest)
  {
    Associate("{", PrintMembers(v, Sorted(v.fields.Keys)), rest);
  }

  lemma NamedFields(pairs: seq<(string, Json)>)
    requires pairs != [] && DistinctKeys(pairs)
    ensures LastWins(pairs) != map[] && Sorted(LastWins(pairs).Keys) != []
  {
    DistinctHold(pairs);
    assert Names(pairs)[0] in Names(pairs);
    KeysNonempty(LastWins(pairs));
  }

  lemma SortedNames(pairs: seq<(string, Json)>, sorted: seq<string>)
    requires StrictlyAscending(sorted)
    ensures Names(pairs) == sorted ==> AscendingKeys(pairs)
  {
    if Names(pairs) == sorted {
      forall i, j | 0 <= i < j < |pairs| ensures Less(pairs[i].0, pairs[j].0) {
        assert pairs[i].0 == sorted[i] && pairs[j].0 == sorted[j];
      }
    }
  }

  // ---------------------------------------------------------------- the gate

  /**
   The gate on the text of an object: a repeated key at any depth is no JSON document; any other text is accepted
   exactly when it uses no choice, with nothing around it.
   */
  lemma GateDecides(a: string, t: Tree, b: string)
    requires Blanks(a) && Valid(t) && t.Object? && Blanks(b)
    ensures Accept(Encode(a + Spell(t, b))) ==
              if !Distinct(t) then Err(JsonError)
              else if a == "" && b == "" && Canonical(t) then Ok(Meant(t))
              else Err(CanonicalFormError)
  {
    var text := a + Spell(t, b);
    LoadsSpelled(a, t, b, true);
    assert a != [] ==> text[0] in a;
    if Distinct(t) {
      DecodesTo(text, Meant(t));
      SpellExact(t, "");
      assert Print(Meant(t)) + "" == Print(Meant(t)) && "" + Spell(t, "") == Spell(t, "");
      if text == Print(Meant(t)) {
        PrintStart(Meant(t), "");
        NothingBefore(a, Spell(t, b), Print(Meant(t)));
        assert b != [] ==> b[0] in b;
        SameRest(t, b, "");
      }
    } else {
      NoByteOrderMark(text);
      DecodeEncode(text);
    }
  }

  /** The payload is UTF-8 without a byte-order mark, and a text of the object tree `t` without a repeated key. */
  ghost predicate IsDocument(payload: Bytes, t: Tree) {
    && !(BYTE_ORDER_MARK <= payload) && Decode(payload).Some?
    && TextOf(Decode(payload).value, t) && t.Object? && Distinct(t)
  }

  lemma DocumentIsRead(payload: Bytes, t: Tree)
    requires IsDocument(payload, t)
    ensures DecodeInput(payload) == Ok(Meant(t))
  {
    LoadsExactly(Decode(payload).value, Meant(t), true);
  }

  lemma ReadIsDocument(payload: Bytes) returns (t: Tree)
    requires DecodeInput(payload).Ok?
    ensures IsDocument(payload, t) && DecodeInput(payload) == Ok(Meant(t))
  {
    var text, v := Decode(payload).value, DecodeInput(payload).value;
    LoadsExactly(text, v, true);
    t :| TextOf(text, t) && Meant(t) == v && (true ==> Distinct(t));
  }

  ghost predicate IsCanonicalText(payload: Bytes, t: Tree) {
    Valid(t) && t.Object? && Distinct(t) && Canonical(t) && payload == Encode(Spell(t, ""))
  }

  lemma AcceptedIsCanonical(payload: Bytes) returns (t: Tree)
    requires Accept(payload).Ok?
    ensures IsCanonicalText(payload, t) && Accept(payload) == Ok(Meant(t))
  {
    t := ReadIsDocument(payload);
    var text := Decode(payload).value;
    var a: string, b: string :| Blanks(a) && Blanks(b) && text == a + Spell(t, b);
    EncodeDecode(payload);
    GateDecides(a, t, b);
    assert "" + Spell(t, "") == Spell(t, "");
  }

  lemma CanonicalIsAccepted(payload: Bytes, t: Tree)
    requires IsCanonicalText(payload, t)
    ensures Accept(payload) == Ok(Meant(t))
  {
    GateDecides("", t, "");
    assert "" + Spell(t, "") == Spell(t, "");
  }

  /** The gate's answer on every byte string, in terms of UTF-8, the grammar and the choices used. */
  lemma GateAnswers(payload: Bytes, v: Json)
    ensures Accept(payload) == Err(EncodingError) <==> BYTE_ORDER_MARK <= payload || Decode(payload).None?
    ensures Accept(payload) == Err(JsonError) <==>
              !(BYTE_ORDER_MARK <= payload) && Decode(payload).Some? && forall t :: !IsDocument(payload, t)
    ensures Accept(payload) == Ok(v) <==> exists t :: IsCanonicalText(payload, t) && Meant(t) == v
  {
    if DecodeInput(payload).Ok? {
      var t := ReadIsDocument(payload);
    }
    if t :| IsDocument(payload, t) {
      DocumentIsRead(payload, t);
    }
    if Accept(payload).Ok? {
      var t := AcceptedIsCanonical(payload);
    }
    if t :| IsCanonicalText(payload, t) && Meant(t) == v {
      CanonicalIsAccepted(payload, t);
    }
  }
}
