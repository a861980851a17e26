/**
 The canonical text of a value reads back as that value, so every value has exactly one canonical
 text and every canonical text exactly one value.
 */
module JsonRoundTrip {
  import opened Outcomes
  import opened Text
  import opened Numerals
  import opened Json

  lemma EscapeCharReadsBack(c: char, rest: string)
    ensures var t := EscapeChar(c) + rest;
            if t[0] == '\\' then Escape(t[1..]) == Some((c, rest))
            else t[0] == c && c != '\"' && c as int >= 0x20 && t[1..] == rest
  {
    var t := EscapeChar(c) + rest;
    if c == '\"' || c == '\\' || c == '\n' || c == '\r' || c == '\t' || c == 12 as char || c == 8 as char {
      assert t[2..] == rest;
    } else if (c as int) < 0x20 {
      var n := c as int;
      assert t[0] == '\\' && t[1] == 'u' && t[2] == '0' && t[3] == '0';
      assert t[4] == HEX[n / 16] && t[5] == HEX[n % 16];
      HexDigitReadsBack(n / 16);
      HexDigitReadsBack(n % 16);
      var u := t[2..];
      assert Hex4(u) == Some(n) by {
        assert HexValue(u[0]) == Some(0) && HexValue(u[1]) == Some(0);
        assert HexValue(u[2]) == Some(n / 16) && HexValue(u[3]) == Some(n % 16);
      }
      assert u[4..] == rest;
      assert t[1..][1..] == u;
      assert n as char == c;
    }
  }

  lemma Associate(a: string, b: string, c: string)
    ensures a + b + c == a + (b + c)
  {
  }

  lemma HexDigitReadsBack(d: nat)
    requires d < 16
    ensures HexValue(HEX[d]) == Some(d)
  {
    if d < 10 {
      assert HEX[d] as int == '0' as int + d;
    } else {
      assert HEX[d] as int == 'a' as int + d - 10;
    }
  }

  lemma {:induction false} CharsReadBack(s: string, rest: string)
    ensures ReadChars(EscapeText(s) + "\"" + rest) == Some((s, rest))
  {
    var t := EscapeText(s) + "\"" + rest;
    if s == [] {
      assert t == "\"" + rest && t[1..] == rest;
    } else {
      var tail := EscapeText(s[1..]) + "\"" + rest;
      assert t == EscapeChar(s[0]) + tail;
      EscapeCharReadsBack(s[0], tail);
      CharsReadBack(s[1..], rest);
      assert [s[0]] + s[1..] == s;
    }
  }

  /** `rest` cannot be taken for the continuation of a number. */
  predicate EndsNumber(rest: string) {
    rest == [] || rest[0] == ',' || rest[0] == ']' || rest[0] == '}' || IsJsonSpace(rest[0])
  }

  lemma NatReadsBack(n: nat, rest: string)
    requires EndsNumber(rest)
    ensures ReadNat(NatText(n) + rest) == Some((n, rest))
  {
    var t := NatText(n);
    var s := t + rest;
    NatTextProperties(n);
    DigitRunOfPrefix(t, rest);
    assert s[0] == t[0];
    var used := if s[0] == '0' then 1 else |t|;
    assert used == |t|;
    assert s[..used] == t && s[used..] == rest;
  }

  lemma NegativeReadsBack(n: nat, rest: string)
    requires EndsNumber(rest)
    ensures ReadInt("-" + (NatText(n) + rest)) == Some((-(n as int), rest))
  {
    NatReadsBack(n, rest);
    var s := "-" + (NatText(n) + rest);
    assert s[1..] == NatText(n) + rest;
  }

  lemma NatReadsBackAsInt(n: nat, rest: string)
    requires EndsNumber(rest)
    ensures ReadInt(NatText(n) + rest) == Some((n as int, rest))
  {
    NatReadsBack(n, rest);
    NatTextProperties(n);
    var s := NatText(n) + rest;
    assert s[0] == NatText(n)[0] && s[0] in NatText(n);
  }

  lemma IntReadsBack(n: int, rest: string)
    requires EndsNumber(rest)
    ensures ReadInt(IntText(n) + rest) == Some((n, rest))
  {
    if n < 0 {
      NegativeReadsBack(-n, rest);
      Associate("-", NatText(-n), rest);
    } else {
      NatReadsBackAsInt(n, rest);
    }
  }

  lemma IntTextStart(n: int)
    ensures IntText(n) != [] && (IntText(n)[0] == '-' || IsDigit(IntText(n)[0]))
  {
    if n >= 0 {
      NatTextProperties(n);
      assert NatText(n)[0] in NatText(n);
    }
  }

  /** No canonical text starts with a blank, a closing bracket or a separator. */
  lemma PrintStart(v: Json, rest: string)
    ensures Print(v) != []
    ensures var c := (Print(v) + rest)[0]; !IsJsonSpace(c) && c != ']' && c != '}'
    ensures SkipSpace(Print(v) + rest) == Print(v) + rest
  {
    if v.JInt? {
      IntTextStart(v.n);
    }
  }

  /** The scalar cases: nothing nested has to be read. */
  lemma ReadPrintScalar(v: Json, rest: string, unique: bool)
    requires EndsNumber(rest) && !v.JArray? && !v.JObject?
    ensures Read(Print(v) + rest, unique) == Some((v, rest))
  {
    match v
    case JNull => ReadWord("null", rest, unique);
    case JBool(b) => ReadWord(if b then "true" else "false", rest, unique);
    case JInt(n) =>
      IntReadsBack(n, rest);
      IntTextStart(n);
      ReadNumberCase(IntText(n) + rest, unique);
    case JString(s) => ReadStringCase(s, rest, unique);
  }

  lemma ReadWord(word: string, rest: string, unique: bool)
    requires word == "null" || word == "true" || word == "false"
    ensures Read(word + rest, unique) == Some((if word == "null" then JNull else JBool(word == "true"), rest))
  {
    var t := word + rest;
    assert t[0] == word[0] && t[1] == word[1] && t[|word|..] == rest;
  }

  lemma ReadStringCase(s: string, rest: string, unique: bool)
    ensures Read(Quote(s) + rest, unique) == Some((JString(s), rest))
  {
    CharsReadBack(s, rest);
    var t := Quote(s) + rest;
    assert t[0] == '\"' && t[1..] == EscapeText(s) + "\"" + rest;
  }

  lemma ReadNumberCase(t: string, unique: bool)
    requires t != [] && (t[0] == '-' || IsDigit(t[0])) && ReadInt(t).Some?
    ensures Read(t, unique) == Some((JInt(ReadInt(t).value.0), ReadInt(t).value.1))
  {
  }

  lemma ReadArrayCase(body: string, items: seq<Json>, rest: string, unique: bool)
    requires SkipSpace(body) == body && body != [] && body[0] != ']'
    requires ReadItems(body, unique) == Some((items, rest))
    ensures Read("[" + body, unique) == Some((JArray(items), rest))
  {
    var t := "[" + body;
    assert t[0] == '[' && t[1..] == body;
  }

  lemma ReadObjectCase(body: string, pairs: seq<(string, Json)>, fields: map<string, Json>, rest: string, unique: bool)
    requires SkipSpace(body) == body && body != [] && body[0] != '}'
    requires ReadMembers(body, unique) == Some((pairs, rest)) && FromPairs(pairs, unique) == Some(fields)
    ensures Read("{" + body, unique) == Some((JObject(fields), rest))
  {
    var t := "{" + body;
    assert t[0] == '{' && t[1..] == body;
  }

  lemma ReadEmpty(rest: string, unique: bool)
    ensures Read("[]" + rest, unique) == Some((JArray([]), rest))
    ensures Read("{}" + rest, unique) == Some((JObject(map[]), rest))
  {
    var a, o := "[]" + rest, "{}" + rest;
    assert a[1..] == "]" + rest && SkipSpace(a[1..]) == a[1..] && a[1..][1..] == rest;
    assert o[1..] == "}" + rest && SkipSpace(o[1..]) == o[1..] && o[1..][1..] == rest;
  }

  lemma ReadPrintArray(v: Json, rest: string, unique: bool)
    requires v.JArray? && v.items != []
    requires ReadItems(PrintItems(v.items) + rest, unique) == Some((v.items, rest))
    ensures Read(Print(v) + rest, unique) == Some((v, rest))
  {
    var body := PrintItems(v.items) + rest;
    PrintItemsStart(v.items, rest);
    ReadArrayCase(body, v.items, rest, unique);
    Associate("[", PrintItems(v.items), rest);
  }

  lemma ReadPrintObject(v: Json, keys: seq<string>, rest: string, unique: bool)
    requires Enumerates(keys, v) && keys != []
    requires ReadMembers(PrintMembers(v, keys) + rest, unique) == Some((PairsOf(v, keys), rest))
    ensures Read("{" + PrintMembers(v, keys) + rest, unique) == Some((v, rest))
  {
    var members := PrintMembers(v, keys);
    MembersStart(v, keys, rest);
    AllPairs(v, keys, unique);
    ReadObjectCase(members + rest, PairsOf(v, keys), v.fields, rest, unique);
    Associate("{", members, rest);
  }

  /** `keys` lists the keys of `v`, each once, in some order. */
  predicate Enumerates(keys: seq<string>, v: Json) {
    v.JObject? && NoRepeats(keys) && (forall k | k in keys :: k in v.fields) && forall k | k in v.fields :: k in keys
  }

  lemma SortedEnumerates(v: Json)
    requires v.JObject?
    ensures Enumerates(Sorted(v.fields.Keys), v)
  {
    AscendingHasNoRepeats(Sorted(v.fields.Keys));
  }

  lemma AllPairs(v: Json, keys: seq<string>, unique: bool)
    requires Enumerates(keys, v)
    ensures FromPairs(PairsOf(v, keys), unique) == Some(v.fields)
  {
    DistinctPairs(v.fields, keys, unique);
    assert (map k | k in keys :: v.fields[k]) == v.fields;
  }

  lemma {:induction false} ReadPrint(v: Json, rest: string, unique: bool)
    requires EndsNumber(rest)
    ensures Read(Print(v) + rest, unique) == Some((v, rest))
    decreases v, 1
  {
    if v == JArray([]) || v == JObject(map[]) {
      ReadEmpty(rest, unique);
    } else if v.JArray? {
      ReadPrintItems(v.items, rest, unique);
      ReadPrintArray(v, rest, unique);
    } else if v.JObject? {
      var keys := Sorted(v.fields.Keys);
      KeysNonempty(v.fields);
      SortedEnumerates(v);
      ReadPrintMembers(v, keys, rest, unique);
      ReadPrintObject(v, keys, rest, unique);
    } else {
      ReadPrintScalar(v, rest, unique);
    }
  }

  lemma MembersStart(v: Json, keys: seq<string>, rest: string)
    requires v.JObject? && keys != [] && forall k | k in keys :: k in v.fields
    ensures var body := PrintMembers(v, keys) + rest; body[0] == '\"' && SkipSpace(body) == body
  {
  }

  lemma KeysNonempty(fields: map<string, Json>)
    requires fields != map[]
    ensures Sorted(fields.Keys) != []
  {
    assert fields.Keys != {};
    var k :| k in fields.Keys;
    assert k in Sorted(fields.Keys);
  }

  lemma PrintItemsStart(items: seq<Json>, rest: string)
    requires items != []
    ensures var body := PrintItems(items) + rest; body[0] != ']' && SkipSpace(body) == body
  {
    var tail := (if |items| == 1 then "]" else "," + PrintItems(items[1..])) + rest;
    assert PrintItems(items) + rest == Print(items[0]) + tail;
    PrintStart(items[0], tail);
  }

  lemma {:induction false} ReadPrintItems(items: seq<Json>, rest: string, unique: bool)
    requires items != []
    ensures ReadItems(PrintItems(items) + rest, unique) == Some((items, rest))
    decreases items, 0
  {
    var v := items[0];
    if |items| == 1 {
      var tail := "]" + rest;
      assert PrintItems(items) + rest == Print(v) + tail;
      ReadPrint(v, tail, unique);
      assert SkipSpace(tail) == tail && tail[1..] == rest;
      assert items == [v];
    } else {
      var body := PrintItems(items[1..]) + rest;
      var tail := "," + body;
      assert PrintItems(items) + rest == Print(v) + tail;
      ReadPrint(v, tail, unique);
      assert SkipSpace(tail) == tail && tail[1..] == body;
      PrintItemsStart(items[1..], rest);
      ReadPrintItems(items[1..], rest, unique);
      assert items == [v] + items[1..];
    }
  }

  /** The members of `v` under `keys`, as pairs in that order. */
  function PairsOf(v: Json, keys: seq<string>): seq<(string, Json)>
    requires v.JObject? && forall k | k in keys :: k in v.fields
  {
    seq(|keys|, i requires 0 <= i < |keys| => (keys[i], v.fields[keys[i]]))
  }

  /** One member, given how its value reads. */
  lemma ReadMemberCase(key: string, w: Json, value: string, tail: string, unique: bool)
    requires value != [] && !IsJsonSpace(value[0]) && tail != [] && !IsJsonSpace(tail[0])
    requires Read(value, unique) == Some((w, tail))
    ensures ReadMember(Quote(key) + ":" + value, unique) == Some((key, w, tail))
  {
    var colon := ":" + value;
    var text := Quote(key) + ":" + value;
    assert text[0] == '\"' && text[1..] == EscapeText(key) + "\"" + colon;
    CharsReadBack(key, colon);
    assert colon[1..] == value;
    assert SkipSpace(colon) == colon && SkipSpace(value) == value && SkipSpace(tail) == tail;
  }

  /** The first member of a printed object, given how its value reads in place. */
  lemma ReadFirstMember(v: Json, keys: seq<string>, tail: string, text: string, unique: bool)
    requires v.JObject? && keys != [] && forall k | k in keys :: k in v.fields
    requires tail != [] && !IsJsonSpace(tail[0])
    requires text == Quote(keys[0]) + ":" + (Print(v.fields[keys[0]]) + tail)
    requires Read(Print(v.fields[keys[0]]) + tail, unique) == Some((v.fields[keys[0]], tail))
    ensures ReadMember(text, unique) == Some((keys[0], v.fields[keys[0]], tail))
  {
    var w := v.fields[keys[0]];
    PrintStart(w, tail);
    ReadMemberCase(keys[0], w, Print(w) + tail, tail, unique);
  }

  lemma PairsStep(v: Json, keys: seq<string>)
    requires v.JObject? && keys != [] && forall k | k in keys :: k in v.fields
    ensures PairsOf(v, keys) == [(keys[0], v.fields[keys[0]])] + PairsOf(v, keys[1..])
  {
  }

  lemma ReadLastMember(text: string, key: string, w: Json, rest: string, unique: bool)
    requires ReadMember(text, unique) == Some((key, w, "}" + rest))
    ensures ReadMembers(text, unique) == Some(([(key, w)], rest))
  {
    assert ("}" + rest)[1..] == rest;
  }

  lemma ReadMoreMembers(text: string, key: string, w: Json, body: string, more: seq<(string, Json)>, rest: string,
                        unique: bool)
    requires ReadMember(text, unique) == Some((key, w, "," + body))
    requires SkipSpace(body) == body && ReadMembers(body, unique) == Some((more, rest))
    ensures ReadMembers(text, unique) == Some(([(key, w)] + more, rest))
  {
    assert ("," + body)[1..] == body;
  }

  lemma MemberShape(v: Json, keys: seq<string>, rest: string)
    requires v.JObject? && keys != [] && forall k | k in keys :: k in v.fields
    ensures PrintMembers(v, keys) + rest ==
              Quote(keys[0]) + ":" + (Print(v.fields[keys[0]])
              + (if |keys| == 1 then "}" + rest else "," + (PrintMembers(v, keys[1..]) + rest)))
  {
    var head := Quote(keys[0]) + ":";
    var value := Print(v.fields[keys[0]]);
    var end := if |keys| == 1 then "}" else "," + PrintMembers(v, keys[1..]);
    Associate(head + value, end, rest);
    Associate(head, value, end + rest);
    if |keys| > 1 {
      Associate(",", PrintMembers(v, keys[1..]), rest);
    }
  }

  lemma {:induction false} ReadPrintMembers(v: Json, keys: seq<string>, rest: string, unique: bool)
    requires v.JObject? && keys != [] && forall k | k in keys :: k in v.fields
    ensures ReadMembers(PrintMembers(v, keys) + rest, unique) == Some((PairsOf(v, keys), rest))
    decreases v, 0, |keys|
  {
    var key := keys[0];
    var w := v.fields[key];
    var text := PrintMembers(v, keys) + rest;
    MemberShape(v, keys, rest);
    if |keys| == 1 {
      ReadPrint(w, "}" + rest, unique);
      ReadFirstMember(v, keys, "}" + rest, text, unique);
      ReadLastMember(text, key, w, rest, unique);
      assert PairsOf(v, keys) == [(key, w)];
    } else {
      var body := PrintMembers(v, keys[1..]) + rest;
      ReadPrint(w, "," + body, unique);
      ReadFirstMember(v, keys, "," + body, text, unique);
      MembersStart(v, keys[1..], rest);
      ReadPrintMembers(v, keys[1..], rest, unique);
      ReadMoreMembers(text, key, w, body, PairsOf(v, keys[1..]), rest, unique);
      PairsStep(v, keys);
    }
  }

  lemma FromPairsAppend(pairs: seq<(string, Json)>, key: string, w: Json, unique: bool)
    requires FromPairs(pairs, unique).Some? && (unique ==> key !in FromPairs(pairs, unique).value)
    ensures FromPairs(pairs + [(key, w)], unique) == Some(FromPairs(pairs, unique).value[key := w])
  {
    assert (pairs + [(key, w)])[..|pairs|] == pairs;
  }

  lemma RestrictStep(fields: map<string, Json>, front: seq<string>, last: string)
    requires last in fields && forall k | k in front :: k in fields
    ensures (map k | k in front + [last] :: fields[k]) == (map k | k in front :: fields[k])[last := fields[last]]
  {
  }

  /** Pairs with distinct keys build the map they came from, whichever way repeats are treated. */
  lemma {:induction false} DistinctPairs(fields: map<string, Json>, keys: seq<string>, unique: bool)
    requires NoRepeats(keys) && forall k | k in keys :: k in fields
    ensures FromPairs(PairsOf(JObject(fields), keys), unique) == Some(map k | k in keys :: fields[k])
    decreases |keys|
  {
    if keys != [] {
      var v := JObject(fields);
      var front, last := keys[..|keys| - 1], keys[|keys| - 1];
      assert keys == front + [last];
      assert last !in front;
      DistinctPairs(fields, front, unique);
      FromPairsAppend(PairsOf(v, front), last, fields[last], unique);
      assert PairsOf(v, keys) == PairsOf(v, front) + [(last, fields[last])];
      RestrictStep(fields, front, last);
    } else {
      assert (map k | k in keys :: fields[k]) == map[];
    }
  }

  /** Reading the canonical text of any value gives that value back, with or without the duplicate hook. */
  lemma LoadsPrint(v: Json, unique: bool)
    ensures Loads(Print(v), unique) == Some(v)
  {
    assert Print(v) + [] == Print(v);
    PrintStart(v, []);
    ReadPrint(v, [], unique);
  }

  /** The same with a final newline, as files carry it. */
  lemma LoadsPrintLine(v: Json, unique: bool)
    ensures Loads(Print(v) + "\n", unique) == Some(v)
  {
    PrintStart(v, "\n");
    ReadPrint(v, "\n", unique);
    assert SkipSpace("\n") == [] by { assert "\n"[1..] == []; }
  }

  /** Two values with one canonical text are the same value. */
  lemma PrintInjective(v: Json, w: Json)
    requires Print(v) == Print(w)
    ensures v == w
  {
    LoadsPrint(v, true);
    LoadsPrint(w, true);
  }
}
