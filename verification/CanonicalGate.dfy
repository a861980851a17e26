/**
 The byte boundary of the admission evaluator: strict UTF-8 without a byte-order mark, one JSON
 object with unique keys, and exactly the canonical serialization of what it decodes to.
 */
module CanonicalGate {
  import opened Outcomes
  import opened Text
  import opened Numerals
  import opened Utf8
  import opened Json
  import opened JsonRoundTrip

  datatype BoundaryError =
    | EncodingError
    | JsonError
    | CanonicalFormError
    | SchemaError
    | RulesetError
    | EvidenceOrderError
    | EvidenceIntegrityError
    | TimestampError

  /** `canonical_json`: the canonical text as UTF-8. */
  function CanonicalBytes(v: Json): Bytes {
    Encode(Print(v))
  }

  const BYTE_ORDER_MARK: Bytes := [0xEF, 0xBB, 0xBF]

  /** `_decode` */
  function DecodeInput(payload: Bytes): Result<Json, BoundaryError> {
    if BYTE_ORDER_MARK <= payload then Err(EncodingError) else
    match Decode(payload)
    case None => Err(EncodingError)
    case Some(text) =>
      match Loads(text, true)
      case None => Err(JsonError)
      case Some(document) => if document.JObject? then Ok(document) else Err(JsonError)
  }

  /** `_decode` followed by `_require_canonical`. */
  function Accept(payload: Bytes): Result<Json, BoundaryError> {
    var document :- DecodeInput(payload);
    if CanonicalBytes(document) == payload then Ok(document) else Err(CanonicalFormError)
  }

  /** `_reject_duplicate_keys`: fills a dictionary pair by pair and stops at the first repeated key. */
  method RejectDuplicateKeys(pairs: seq<(string, Json)>) returns (r: Result<map<string, Json>, BoundaryError>)
    ensures r == if FromPairs(pairs, true).Some? then Ok(FromPairs(pairs, true).value) else Err(JsonError)
  {
    var seen: map<string, Json> := map[];
    for i := 0 to |pairs|
      invariant FromPairs(pairs[..i], true) == Some(seen)
    {
      assert pairs[..i + 1][..i] == pairs[..i];
      if pairs[i].0 in seen {
        RepeatRefused(pairs, i);
        return Err(JsonError);
      }
      seen := seen[pairs[i].0 := pairs[i].1];
    }
    assert pairs[..|pairs|] == pairs;
    return Ok(seen);
  }

  /** The hook accepts exactly the lists of distinct keys, and then loses no pair. */
  lemma {:induction false} UniquePairsExact(pairs: seq<(string, Json)>)
    ensures FromPairs(pairs, true).Some? <==> forall i, j | 0 <= i < j < |pairs| :: pairs[i].0 != pairs[j].0
    ensures FromPairs(pairs, true).Some? ==>
              var m := FromPairs(pairs, true).value;
              (forall i | 0 <= i < |pairs| :: pairs[i].0 in m && m[pairs[i].0] == pairs[i].1)
              && forall k | k in m :: exists i :: 0 <= i < |pairs| && pairs[i].0 == k
  {
    if pairs != [] {
      var front, n := pairs[..|pairs| - 1], |pairs| - 1;
      UniquePairsExact(front);
      assert forall i | 0 <= i < n :: front[i] == pairs[i];
      if FromPairs(front, true).Some? {
        var m := FromPairs(front, true).value;
        if pairs[n].0 in m {
          var i :| 0 <= i < |front| && front[i].0 == pairs[n].0;
          assert pairs[i].0 == pairs[n].0;
        }
      } else {
        var i, j :| 0 <= i < j < |front| && front[i].0 == front[j].0;
        assert pairs[i].0 == pairs[j].0;
      }
    }
  }

  /** Once a prefix repeats a key, the whole list is refused. */
  lemma {:induction false} RepeatRefused(pairs: seq<(string, Json)>, i: nat)
    requires i < |pairs| && FromPairs(pairs[..i], true).Some? && pairs[i].0 in FromPairs(pairs[..i], true).value
    ensures FromPairs(pairs, true) == None
    decreases |pairs|
  {
    var front := pairs[..|pairs| - 1];
    if i < |pairs| - 1 {
      assert front[..i] == pairs[..i];
      RepeatRefused(front, i);
    } else {
      assert front == pairs[..i];
    }
  }

  lemma CanonicalInjective(v: Json, w: Json)
    requires CanonicalBytes(v) == CanonicalBytes(w)
    ensures v == w
  {
    EncodeInjective(Print(v), Print(w));
    PrintInjective(v, w);
  }

  lemma NoByteOrderMark(text: string)
    requires text == [] || (text[0] as int) < 0x80
    ensures !(BYTE_ORDER_MARK <= Encode(text))
  {
    if text != [] {
      assert Encode(text)[0] == text[0] as int;
    }
  }

  /** Any ASCII-led text that reads as an object decodes to that object. */
  lemma DecodesTo(text: string, document: Json)
    requires text == [] || (text[0] as int) < 0x80
    requires Loads(text, true) == Some(document) && document.JObject?
    ensures DecodeInput(Encode(text)) == Ok(document)
    ensures Accept(Encode(text)) == if text == Print(document) then Ok(document) else Err(CanonicalFormError)
  {
    NoByteOrderMark(text);
    DecodeEncode(text);
    if CanonicalBytes(document) == Encode(text) {
      EncodeInjective(Print(document), text);
    }
  }

  /**
   The gate is exact: it accepts a byte string as a document precisely when the document is an
   object and the bytes are its canonical serialization.
   */
  lemma GateExact(payload: Bytes, document: Json)
    ensures Accept(payload) == Ok(document) <==> document.JObject? && payload == CanonicalBytes(document)
  {
    if document.JObject? && payload == CanonicalBytes(document) {
      LoadsPrint(document, true);
      assert Print(document)[0] == '{';
      DecodesTo(Print(document), document);
    }
  }

  /** Every accepted document has exactly one accepted spelling. */
  lemma OneSpelling(a: Bytes, b: Bytes)
    requires Accept(a).Ok? && Accept(a) == Accept(b)
    ensures a == b
  {
    GateExact(a, Accept(a).value);
    GateExact(b, Accept(b).value);
  }

  /** The object text that lists the members of `document` in the order of `keys`. */
  function Listing(document: Json, keys: seq<string>): string
    requires Enumerates(keys, document) && keys != []
  {
    "{" + PrintMembers(document, keys)
  }

  /** Every order of the keys is the same document; only the ascending order is accepted. */
  lemma KeyOrderMatters(document: Json, keys: seq<string>)
    requires Enumerates(keys, document) && keys != []
    ensures DecodeInput(Encode(Listing(document, keys))) == Ok(document)
    ensures Accept(Encode(Listing(document, keys))) ==
              if keys == Sorted(document.fields.Keys) then Ok(document) else Err(CanonicalFormError)
  {
    var text := Listing(document, keys);
    var sorted := Sorted(document.fields.Keys);
    assert document.fields != map[] by { assert keys[0] in document.fields; }
    ReadPrintMembers(document, keys, [], true);
    ReadPrintObject(document, keys, [], true);
    assert text + [] == text;
    DecodesTo(text, document);
    if text == Print(document) {
      SortedEnumerates(document);
      ReadPrintMembers(document, sorted, [], true);
      assert text[1..] == PrintMembers(document, keys) && Print(document)[1..] == PrintMembers(document, sorted);
      PairsDetermineKeys(document, keys, sorted);
    }
  }

  lemma PairsDetermineKeys(v: Json, a: seq<string>, b: seq<string>)
    requires Enumerates(a, v) && Enumerates(b, v) && PairsOf(v, a) == PairsOf(v, b)
    ensures a == b
  {
    assert |a| == |PairsOf(v, a)| == |b|;
    forall i | 0 <= i < |a| ensures a[i] == b[i] {
      assert PairsOf(v, a)[i].0 == a[i] && PairsOf(v, b)[i].0 == b[i];
    }
  }

  /** Insignificant whitespace keeps the document and loses the acceptance. */
  lemma WhitespaceRefused(document: Json, blanks: string)
    requires document.JObject? && blanks != [] && forall c | c in blanks :: IsJsonSpace(c)
    ensures DecodeInput(Encode(blanks + Print(document))) == Ok(document)
    ensures Accept(Encode(blanks + Print(document))) == Err(CanonicalFormError)
  {
    var text := blanks + Print(document);
    SkipBlanks(blanks, Print(document));
    PrintStart(document, []);
    assert Print(document) + [] == Print(document);
    LoadsPrint(document, true);
    DecodesTo(text, document);
    assert text[0] in blanks;
  }

  lemma {:induction false} SkipBlanks(blanks: string, rest: string)
    requires forall c | c in blanks :: IsJsonSpace(c)
    ensures SkipSpace(blanks + rest) == SkipSpace(rest)
  {
    if blanks == [] {
      assert blanks + rest == rest;
    } else {
      assert (blanks + rest)[1..] == blanks[1..] + rest;
      SkipBlanks(blanks[1..], rest);
    }
  }

  /**
   Any spelling of a member's value other than the canonical one still names the same document, and
   is refused: an optional escape, blanks inside the value, a nested key order, a negative zero.
   */
  lemma OtherSpellingRefused(key: string, v: Json, spelling: string)
    requires spelling != [] && !IsJsonSpace(spelling[0])
    requires Read(spelling + "}", true) == Some((v, "}"))
    ensures DecodeInput(Encode("{" + (Quote(key) + ":" + (spelling + "}")))) == Ok(JObject(map[key := v]))
    ensures Accept(Encode("{" + (Quote(key) + ":" + (spelling + "}"))))
              == if spelling == Print(v) then Ok(JObject(map[key := v])) else Err(CanonicalFormError)
  {
    var document := JObject(map[key := v]);
    var member := Quote(key) + ":" + (spelling + "}");
    ReadMemberCase(key, v, spelling + "}", "}", true);
    assert "}" + [] == "}";
    ReadLastMember(member, key, v, [], true);
    FromPairsAppend([], key, v, true);
    assert [] + [(key, v)] == [(key, v)];
    ReadObjectCase(member, [(key, v)], map[key := v], [], true);
    DecodesTo("{" + member, document);
    CanonicalSingleton(key, v);
    assert Print(document) == "{" + (Quote(key) + ":" + (Print(v) + "}"));
    SameSpelling(Quote(key), spelling, Print(v));
  }

  lemma SameSpelling(key: string, a: string, b: string)
    ensures "{" + (key + ":" + (a + "}")) == "{" + (key + ":" + (b + "}")) <==> a == b
  {
    var s, t := "{" + (key + ":" + (a + "}")), "{" + (key + ":" + (b + "}"));
    assert s[|key| + 2..|s| - 1] == a && t[|key| + 2..|t| - 1] == b;
  }

  /** Instances: `-0`, an escaped solidus, an escaped letter. */
  lemma OtherSpellings()
    ensures Read("-0" + "}", true) == Some((JInt(0), "}"))
    ensures Read("\"\\/\"" + "}", true) == Some((JString("/"), "}"))
    ensures Read("\"\\u0041\"" + "}", true) == Some((JString("A"), "}"))
  {
    ReadNegativeZero();
    ReadEscapedSolidus();
    ReadEscapedLetter();
  }

  lemma ReadNegativeZero()
    ensures Read("-0" + "}", true) == Some((JInt(0), "}"))
  {
    var s := "-0" + "}";
    assert s[1..] == "0}" && "0}"[1..] == "}" && "0}"[..1] == "0" && "0"[..0] == [];
    assert DigitRun("}") == 0;
  }

  lemma ReadEscapedSolidus()
    ensures Read("\"\\/\"" + "}", true) == Some((JString("/"), "}"))
  {
    var s := "\"\\/\"" + "}";
    var t := s[1..];
    assert t == "\\/\"}" && t[1..] == "/\"}" && t[1..][1..] == "\"}" && "\"}"[1..] == "}";
    assert ReadChars("\"}") == Some(([], "}"));
    assert Escape("/\"}") == Some(('/', "\"}"));
    assert ['/'] + [] == "/";
  }

  lemma ReadEscapedLetter()
    ensures Read("\"\\u0041\"" + "}", true) == Some((JString("A"), "}"))
  {
    var s := "\"\\u0041\"" + "}";
    var t := s[1..];
    var u := "0041\"}";
    assert t == "\\u0041\"}" && t[1..] == "u0041\"}" && t[1..][1..] == u && u[4..] == "\"}" && "\"}"[1..] == "}";
    assert Hex4(u) == Some(0x41);
    assert UnicodeEscape(u) == Some(('A', "\"}"));
    assert ReadChars("\"}") == Some(([], "}"));
    assert ['A'] + [] == "A";
  }

  lemma CanonicalSingleton(key: string, v: Json)
    ensures Print(JObject(map[key := v])) == "{" + (Quote(key) + ":" + Print(v) + "}")
  {
    var document := JObject(map[key := v]);
    var keys := Sorted(document.fields.Keys);
    assert document.fields.Keys == {key};
    SortedSingleton(key);
    assert document.fields != map[] by { assert key in document.fields; }
  }

  lemma SortedSingleton(key: string)
    ensures Sorted({key}) == [key]
  {
    AscendingUnique(Sorted({key}), [key]);
  }

  /** A repeated key is refused at this boundary, where a plain reader lets the later value win. */
  lemma DuplicateKeyRefused(key: string, v: Json, w: Json)
    ensures var text := "{" + (Quote(key) + ":" + (Print(v) + ("," + (Quote(key) + ":" + (Print(w) + "}")))));
            DecodeInput(Encode(text)) == Err(JsonError) && Loads(text, false) == Some(JObject(map[key := w]))
  {
    var inner := Quote(key) + ":" + (Print(w) + "}");
    var outer := Quote(key) + ":" + (Print(v) + ("," + inner));
    ReadTwoMembers(key, v, key, w, true);
    ReadTwoMembers(key, v, key, w, false);
    RepeatedPair(key, v, w);
    ReadRepeatedKey(outer, [(key, v)] + [(key, w)], map[key := w]);
    NoByteOrderMark("{" + outer);
    DecodeEncode("{" + outer);
  }

  lemma ReadRepeatedKey(body: string, pairs: seq<(string, Json)>, fields: map<string, Json>)
    requires body != [] && body[0] == '\"'
    requires ReadMembers(body, true) == Some((pairs, [])) && FromPairs(pairs, true) == None
    requires ReadMembers(body, false) == Some((pairs, [])) && FromPairs(pairs, false) == Some(fields)
    ensures Loads("{" + body, true) == None && Loads("{" + body, false) == Some(JObject(fields))
  {
    var text := "{" + body;
    assert text[0] == '{' && text[1..] == body && SkipSpace(text) == text && SkipSpace(body) == body;
    ReadObjectCase(body, pairs, fields, [], false);
    assert Read(text, true) == None;
  }

  lemma RepeatedPair(key: string, v: Json, w: Json)
    ensures FromPairs([(key, v)] + [(key, w)], true) == None
    ensures FromPairs([(key, v)] + [(key, w)], false) == Some(map[key := w])
  {
    var pairs := [(key, v)] + [(key, w)];
    assert pairs[..1] == [(key, v)] && [(key, v)][..0] == [];
    assert FromPairs([(key, v)], true) == Some(map[key := v]);
    FromPairsAppend([(key, v)], key, w, false);
    assert map[key := v][key := w] == map[key := w];
  }

  lemma ReadTwoMembers(k1: string, v: Json, k2: string, w: Json, unique: bool)
    ensures ReadMembers(Quote(k1) + ":" + (Print(v) + ("," + (Quote(k2) + ":" + (Print(w) + "}")))), unique)
              == Some(([(k1, v)] + [(k2, w)], []))
  {
    var inner := Quote(k2) + ":" + (Print(w) + "}");
    var outer := Quote(k1) + ":" + (Print(v) + ("," + inner));
    PrintStart(w, "}");
    ReadPrint(w, "}", unique);
    ReadMemberCase(k2, w, Print(w) + "}", "}", unique);
    assert "}" + [] == "}";
    ReadLastMember(inner, k2, w, [], unique);
    PrintStart(v, "," + inner);
    ReadPrint(v, "," + inner, unique);
    ReadMemberCase(k1, v, Print(v) + ("," + inner), "," + inner, unique);
    assert inner[0] == '\"' && SkipSpace(inner) == inner;
    ReadMoreMembers(outer, k1, v, inner, [(k2, w)], [], unique);
  }
}
