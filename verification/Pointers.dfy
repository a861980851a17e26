/**
 The reference walk over a schema document: every `$ref` with the JSON Pointer of its position (sections
 3 and 4 of RFC 6901), and what those pointers evaluate to.
 */
module Pointers {
  import opened Outcomes
  import opened Text
  import opened Numerals
  import opened Json
  import opened JsonPath

  // ---------------------------------------------------------------- tokens

  /** `s.replace(c, by)` */
  function ReplaceChar(s: string, c: char, text: string): string {
    if s == [] then [] else (if s[0] == c then text else [s[0]]) + ReplaceChar(s[1..], c, text)
  }

  /** `s.replace(a + b, to)` */
  function ReplacePair(s: string, a: char, b: char, to: char): string
    decreases |s|
  {
    if s == [] then []
    else if |s| >= 2 && s[0] == a && s[1] == b then [to] + ReplacePair(s[2..], a, b, to)
    else [s[0]] + ReplacePair(s[1..], a, b, to)
  }

  /** `_escape_pointer_token` */
  function EscapeToken(token: string): string {
    ReplaceChar(ReplaceChar(token, '~', "~0"), '/', "~1")
  }

  /** Section 4: first `~1` becomes `/`, then `~0` becomes `~`. */
  function UnescapeToken(s: string): string {
    ReplacePair(ReplacePair(s, '~', '1', '/'), '~', '0', '~')
  }

  function EscapeOne(c: char): string {
    if c == '~' then "~0" else if c == '/' then "~1" else [c]
  }

  lemma {:induction false} ReplaceCharConcat(a: string, b: string, c: char, text: string)
    ensures ReplaceChar(a + b, c, text) == ReplaceChar(a, c, text) + ReplaceChar(b, c, text)
  {
    if a == [] {
      assert a + b == b;
    } else {
      assert (a + b)[1..] == a[1..] + b;
      ReplaceCharConcat(a[1..], b, c, text);
    }
  }

  lemma EscapeStep(c: char, rest: string)
    ensures EscapeToken([c] + rest) == EscapeOne(c) + EscapeToken(rest)
  {
    assert ([c] + rest)[1..] == rest;
    var inner := if c == '~' then "~0" else [c];
    ReplaceCharConcat(inner, ReplaceChar(rest, '~', "~0"), '/', "~1");
    assert ReplaceChar([c], '/', "~1") == if c == '/' then "~1" else [c];
    assert "~0"[1..] == "0" && ReplaceChar("0", '/', "~1") == "0" && ReplaceChar("~0", '/', "~1") == "~0";
  }

  lemma PairStep(c: char, rest: string, b: char, to: char)
    ensures c != '~' ==> ReplacePair([c] + rest, '~', b, to) == [c] + ReplacePair(rest, '~', b, to)
    ensures c == '~' ==> ReplacePair(['~', b] + rest, '~', b, to) == [to] + ReplacePair(rest, '~', b, to)
  {
    assert ([c] + rest)[1..] == rest;
    assert (['~', b] + rest)[2..] == rest;
  }

  /** The first unescaping pass undoes the second escaping pass. */
  lemma {:induction false} FirstPass(token: string)
    ensures ReplacePair(EscapeToken(token), '~', '1', '/') == ReplaceChar(token, '~', "~0")
  {
    if token != [] {
      var c, rest := token[0], token[1..];
      assert token == [c] + rest;
      EscapeStep(c, rest);
      FirstPass(rest);
      var tail := EscapeToken(rest);
      if c == '~' {
        var s := "~0" + tail;
        assert s[1..] == ['0'] + tail;
        PairStep('0', tail, '1', '/');
      } else if c == '/' {
        assert "~1" == ['~', '1'];
        PairStep('~', tail, '1', '/');
      } else {
        PairStep(c, tail, '1', '/');
      }
    }
  }

  lemma {:induction false} SecondPass(token: string)
    ensures ReplacePair(ReplaceChar(token, '~', "~0"), '~', '0', '~') == token
  {
    if token != [] {
      var c, rest := token[0], token[1..];
      SecondPass(rest);
      var tail := ReplaceChar(rest, '~', "~0");
      if c == '~' {
        assert "~0" == ['~', '0'];
        PairStep('~', tail, '0', '~');
      } else {
        PairStep(c, tail, '0', '~');
      }
      assert token == [c] + rest;
    }
  }

  lemma TokenRoundTrip(token: string)
    ensures UnescapeToken(EscapeToken(token)) == token
  {
    FirstPass(token);
    SecondPass(token);
  }

  lemma {:induction false} NoSlashInToken(token: string)
    ensures '/' !in EscapeToken(token)
  {
    if token != [] {
      assert token == [token[0]] + token[1..];
      EscapeStep(token[0], token[1..]);
      NoSlashInToken(token[1..]);
    }
  }

  // ---------------------------------------------------------------- pointers

  function Token(step: Step): string {
    match step
    case Key(k) => EscapeToken(k)
    case Index(i) => NatText(i)
  }

  /** The pointer of a position. */
  function Pointer(path: Position): string {
    if path == [] then "" else "/" + Token(path[0]) + Pointer(path[1..])
  }

  function TokenLength(s: string): (k: nat)
    ensures k <= |s| && '/' !in s[..k] && (k < |s| ==> s[k] == '/')
  {
    if s == [] || s[0] == '/' then 0 else
    assert s[..1 + TokenLength(s[1..])] == [s[0]] + s[1..][..TokenLength(s[1..])];
    1 + TokenLength(s[1..])
  }

  /** Section 4: a member name, or an array index without leading zeros. */
  function StepFor(v: Json, token: string): Option<Step> {
    if v.JObject? then Some(Key(UnescapeToken(token)))
    else if v.JArray? && token != [] && AllDigits(token) && (token[0] != '0' || token == "0") then
      Some(Index(NatValue(token)))
    else None
  }

  /** Evaluates a pointer token by token, and says which position it reached. */
  function Locate(v: Json, pointer: string): Option<Position>
    decreases |pointer|
  {
    if pointer == "" then Some([])
    else if pointer[0] != '/' then None
    else
      var k := TokenLength(pointer[1..]);
      var step :- StepFor(v, pointer[1..][..k]);
      var w :- Child(v, step);
      var rest :- Locate(w, pointer[1..][k..]);
      Some([step] + rest)
  }

  /** The value a pointer evaluates to. */
  function Evaluate(v: Json, pointer: string): Option<Json> {
    var path :- Locate(v, pointer);
    At(v, path)
  }

  lemma {:induction false} TokenLengthOf(token: string, rest: string)
    requires '/' !in token && (rest == [] || rest[0] == '/')
    ensures TokenLength(token + rest) == |token|
  {
    if token == [] {
      assert token + rest == rest;
    } else {
      assert (token + rest)[1..] == token[1..] + rest;
      TokenLengthOf(token[1..], rest);
    }
  }

  lemma StepOfToken(v: Json, step: Step)
    requires Child(v, step).Some?
    ensures StepFor(v, Token(step)) == Some(step) && '/' !in Token(step)
  {
    match step
    case Key(k) =>
      TokenRoundTrip(k);
      NoSlashInToken(k);
    case Index(i) =>
      NatTextProperties(i);
  }

  lemma LocateStep(v: Json, step: Step, token: string, w: Json, rest: string, path: Position)
    requires '/' !in token && (rest == [] || rest[0] == '/')
    requires StepFor(v, token) == Some(step) && Child(v, step) == Some(w) && Locate(w, rest) == Some(path)
    ensures Locate(v, "/" + (token + rest)) == Some([step] + path)
  {
    var pointer := "/" + (token + rest);
    assert pointer[1..] == token + rest;
    TokenLengthOf(token, rest);
    assert (token + rest)[..|token|] == token && (token + rest)[|token|..] == rest;
  }

  lemma PointerUnder(step: Step, path: Position)
    ensures Pointer([step] + path) == "/" + (Token(step) + Pointer(path))
    ensures Pointer(path) == [] || Pointer(path)[0] == '/'
  {
    assert ([step] + path)[1..] == path;
    assert "/" + Token(step) + Pointer(path) == "/" + (Token(step) + Pointer(path));
  }

  /** Every pointer leads back to the position it was made from. */
  lemma {:induction false} LocatePointer(v: Json, path: Position)
    requires At(v, path).Some?
    ensures Locate(v, Pointer(path)) == Some(path)
    decreases |path|
  {
    if path != [] {
      var step, rest := path[0], path[1..];
      var w := Child(v, step).value;
      StepOfToken(v, step);
      LocatePointer(w, rest);
      PointerUnder(step, rest);
      LocateStep(v, step, Token(step), w, Pointer(rest), rest);
      assert path == [step] + rest;
    }
  }

  /** Different positions of one document have different pointers, even where a key reads like an index. */
  lemma PointerInjective(v: Json, p: Position, q: Position)
    requires At(v, p).Some? && At(v, q).Some? && Pointer(p) == Pointer(q)
    ensures p == q
  {
    LocatePointer(v, p);
    LocatePointer(v, q);
  }

  // ---------------------------------------------------------------- the walk

  /** `_iter_refs`: `(pointer, reference)` for every `$ref`; members in key order. */
  function Refs(v: Json, pointer: string): seq<(string, string)>
    decreases v, 1
  {
    match v
    case JObject(fields) => MemberRefs(v, Sorted(fields.Keys), pointer)
    case JArray(items) => ItemRefs(v, 0, pointer)
    case _ => []
  }

  function MemberRefs(v: Json, keys: seq<string>, pointer: string): seq<(string, string)>
    requires v.JObject? && forall k | k in keys :: k in v.fields
    decreases v, 0, |keys|
  {
    if keys == [] then [] else
    var value, child := v.fields[keys[0]], pointer + "/" + EscapeToken(keys[0]);
    (if keys[0] == "$ref" && value.JString? then [(child, value.s)] else Refs(value, child))
    + MemberRefs(v, keys[1..], pointer)
  }

  function ItemRefs(v: Json, i: nat, pointer: string): seq<(string, string)>
    requires v.JArray? && i <= |v.items|
    decreases v, 0, |v.items| - i
  {
    if i == |v.items| then [] else
    Refs(v.items[i], pointer + "/" + NatText(i)) + ItemRefs(v, i + 1, pointer)
  }

  /** A position whose last step is the key `$ref` and which holds the string `ref`. */
  predicate IsRef(v: Json, path: Position, ref: string) {
    path != [] && path[|path| - 1] == Key("$ref") && At(v, path) == Some(JString(ref))
  }

  /** The same walk, keeping positions instead of pointers. */
  function Positions(v: Json): seq<(Position, string)>
    decreases v, 1
  {
    match v
    case JObject(fields) => MemberPositions(v, Sorted(fields.Keys))
    case JArray(items) => ItemPositions(v, 0)
    case _ => []
  }

  function MemberPositions(v: Json, keys: seq<string>): seq<(Position, string)>
    requires v.JObject? && forall k | k in keys :: k in v.fields
    decreases v, 0, |keys|
  {
    if keys == [] then [] else
    var value := v.fields[keys[0]];
    (if keys[0] == "$ref" && value.JString? then [([Key("$ref")], value.s)] else Under(Key(keys[0]), Positions(value)))
    + MemberPositions(v, keys[1..])
  }

  function ItemPositions(v: Json, i: nat): seq<(Position, string)>
    requires v.JArray? && i <= |v.items|
    decreases v, 0, |v.items| - i
  {
    if i == |v.items| then [] else Under(Index(i), Positions(v.items[i])) + ItemPositions(v, i + 1)
  }

  function Under(step: Step, found: seq<(Position, string)>): (r: seq<(Position, string)>)
    ensures |r| == |found|
    ensures forall k | 0 <= k < |r| :: r[k] == ([step] + found[k].0, found[k].1)
  {
    seq(|found|, k requires 0 <= k < |found| => ([step] + found[k].0, found[k].1))
  }

  function Written(prefix: string, found: seq<(Position, string)>): (r: seq<(string, string)>)
    ensures |r| == |found|
    ensures forall k | 0 <= k < |r| :: r[k] == (prefix + Pointer(found[k].0), found[k].1)
  {
    seq(|found|, k requires 0 <= k < |found| => (prefix + Pointer(found[k].0), found[k].1))
  }

  lemma Associate(a: string, b: string, c: string, d: string)
    ensures a + b + c + d == a + (b + (c + d))
  {
  }

  lemma WrittenUnder(prefix: string, step: Step, found: seq<(Position, string)>)
    ensures Written(prefix + "/" + Token(step), found) == Written(prefix, Under(step, found))
  {
    forall k | 0 <= k < |found|
      ensures prefix + "/" + Token(step) + Pointer(found[k].0) == prefix + Pointer([step] + found[k].0)
    {
      PointerUnder(step, found[k].0);
      Associate(prefix, "/", Token(step), Pointer(found[k].0));
    }
  }

  lemma WrittenConcat(prefix: string, a: seq<(Position, string)>, b: seq<(Position, string)>)
    ensures Written(prefix, a + b) == Written(prefix, a) + Written(prefix, b)
  {
  }

  lemma WrittenRef(prefix: string, ref: string)
    ensures Written(prefix, [([Key("$ref")], ref)]) == [(prefix + "/" + EscapeToken("$ref"), ref)]
  {
    var step, here: Position := Key("$ref"), [];
    WrittenUnder(prefix, step, [(here, ref)]);
    assert [step] + here == [step] && Under(step, [(here, ref)])[0] == ([step], ref);
    assert prefix + "/" + EscapeToken("$ref") + "" == prefix + "/" + EscapeToken("$ref");
  }

  /** The walk yields the pointers of those positions, in the same order. */
  lemma {:induction false} RefsAreWritten(v: Json, prefix: string)
    ensures Refs(v, prefix) == Written(prefix, Positions(v))
    decreases v, 1
  {
    match v
    case JObject(fields) => MemberRefsAreWritten(v, Sorted(fields.Keys), prefix);
    case JArray(items) => ItemRefsAreWritten(v, 0, prefix);
    case _ =>
  }

  lemma {:induction false} MemberRefsAreWritten(v: Json, keys: seq<string>, prefix: string)
    requires v.JObject? && forall k | k in keys :: k in v.fields
    ensures MemberRefs(v, keys, prefix) == Written(prefix, MemberPositions(v, keys))
    decreases v, 0, |keys|
  {
    if keys != [] {
      var value := v.fields[keys[0]];
      MemberRefsAreWritten(v, keys[1..], prefix);
      if keys[0] == "$ref" && value.JString? {
        WrittenRef(prefix, value.s);
        WrittenConcat(prefix, [([Key("$ref")], value.s)], MemberPositions(v, keys[1..]));
      } else {
        RefsAreWritten(value, prefix + "/" + EscapeToken(keys[0]));
        WrittenUnder(prefix, Key(keys[0]), Positions(value));
        WrittenConcat(prefix, Under(Key(keys[0]), Positions(value)), MemberPositions(v, keys[1..]));
      }
    }
  }

  lemma {:induction false} ItemRefsAreWritten(v: Json, i: nat, prefix: string)
    requires v.JArray? && i <= |v.items|
    ensures ItemRefs(v, i, prefix) == Written(prefix, ItemPositions(v, i))
    decreases v, 0, |v.items| - i
  {
    if i < |v.items| {
      RefsAreWritten(v.items[i], prefix + "/" + NatText(i));
      WrittenUnder(prefix, Index(i), Positions(v.items[i]));
      ItemRefsAreWritten(v, i + 1, prefix);
      WrittenConcat(prefix, Under(Index(i), Positions(v.items[i])), ItemPositions(v, i + 1));
    }
  }

  // ---------------------------------------------------------------- which positions

  lemma RefUnder(v: Json, step: Step, path: Position, ref: string)
    requires Child(v, step).Some? && path != []
    ensures IsRef(v, [step] + path, ref) <==> IsRef(Child(v, step).value, path, ref)
  {
    AtUnder(v, step, path);
  }

  lemma RefHere(v: Json, path: Position, ref: string)
    requires |path| == 1
    ensures IsRef(v, path, ref) <==> path == [Key("$ref")] && Child(v, Key("$ref")) == Some(JString(ref))
  {
    assert path[1..] == [] && path == [path[0]];
    if Child(v, path[0]).Some? {
      assert At(Child(v, path[0]).value, []) == Child(v, path[0]);
    }
  }

  lemma NoRefInside(v: Json, path: Position, ref: string)
    requires !v.JObject? && !v.JArray?
    ensures !IsRef(v, path, ref)
  {
  }

  lemma InUnder(step: Step, found: seq<(Position, string)>, path: Position, ref: string)
    ensures (path, ref) in Under(step, found) <==> path != [] && path[0] == step && (path[1..], ref) in found
  {
    var all := Under(step, found);
    if (path, ref) in all {
      var k :| 0 <= k < |all| && all[k] == (path, ref);
      assert path[1..] == found[k].0;
    }
    if path != [] && path[0] == step && (path[1..], ref) in found {
      var k :| 0 <= k < |found| && found[k] == (path[1..], ref);
      assert path == [step] + path[1..];
      assert all[k] == (path, ref);
    }
  }

  /** The walk finds a position exactly when its last key is `$ref` and its value is a string. */
  lemma {:induction false} PositionsExact(v: Json, path: Position, ref: string)
    ensures (path, ref) in Positions(v) <==> IsRef(v, path, ref)
    decreases v, 1
  {
    match v
    case JObject(fields) =>
      MemberPositionsExact(v, Sorted(fields.Keys), path, ref);
    case JArray(items) =>
      ItemPositionsExact(v, 0, path, ref);
    case _ =>
      NoRefInside(v, path, ref);
  }

  lemma {:induction false} MemberPositionsExact(v: Json, keys: seq<string>, path: Position, ref: string)
    requires v.JObject? && forall k | k in keys :: k in v.fields
    ensures (path, ref) in MemberPositions(v, keys) <==>
              path != [] && path[0].Key? && path[0].key in keys && IsRef(v, path, ref)
    decreases v, 0, |keys|
  {
    if keys != [] {
      MemberPositionsExact(v, keys[1..], path, ref);
      OneMember(v, keys[0], path, ref);
      assert keys == [keys[0]] + keys[1..];
    }
  }

  function OneMemberPositions(v: Json, key: string): seq<(Position, string)>
    requires v.JObject? && key in v.fields
  {
    var value := v.fields[key];
    if key == "$ref" && value.JString? then [([Key("$ref")], value.s)] else Under(Key(key), Positions(value))
  }

  lemma {:induction false} OneMember(v: Json, key: string, path: Position, ref: string)
    requires v.JObject? && key in v.fields
    ensures (path, ref) in OneMemberPositions(v, key) <==> path != [] && path[0] == Key(key) && IsRef(v, path, ref)
    decreases v, 0, 0
  {
    var value := v.fields[key];
    if |path| == 1 {
      RefHere(v, path, ref);
    }
    if key == "$ref" && value.JString? {
      if |path| > 1 && path[0] == Key(key) {
        assert path == [path[0]] + path[1..];
        RefUnder(v, path[0], path[1..], ref);
        NoRefInside(value, path[1..], ref);
      }
    } else {
      InUnder(Key(key), Positions(value), path, ref);
      if path != [] && path[0] == Key(key) {
        PositionsExact(value, path[1..], ref);
        assert path == [path[0]] + path[1..];
        if |path| > 1 {
          RefUnder(v, path[0], path[1..], ref);
        }
      }
    }
  }

  lemma {:induction false} ItemPositionsExact(v: Json, i: nat, path: Position, ref: string)
    requires v.JArray? && i <= |v.items|
    ensures (path, ref) in ItemPositions(v, i) <==>
              path != [] && path[0].Index? && i <= path[0].index < |v.items| && IsRef(v, path, ref)
    decreases v, 0, |v.items| - i
  {
    if i < |v.items| {
      ItemPositionsExact(v, i + 1, path, ref);
      InUnder(Index(i), Positions(v.items[i]), path, ref);
      if path != [] && path[0] == Index(i) {
        PositionsExact(v.items[i], path[1..], ref);
        assert path == [path[0]] + path[1..];
        if |path| > 1 {
          RefUnder(v, path[0], path[1..], ref);
        } else {
          RefHere(v, path, ref);
        }
      }
    }
  }

  // ---------------------------------------------------------------- each once

  ghost predicate EachOnce(found: seq<(Position, string)>) {
    forall i, j | 0 <= i < j < |found| :: found[i].0 != found[j].0
  }

  lemma UnderOnce(step: Step, found: seq<(Position, string)>)
    requires EachOnce(found)
    ensures EachOnce(Under(step, found))
  {
    var all := Under(step, found);
    forall i, j | 0 <= i < j < |all| ensures all[i].0 != all[j].0 {
      assert all[i].0[1..] == found[i].0 && all[j].0[1..] == found[j].0;
    }
  }

  lemma ConcatOnce(a: seq<(Position, string)>, b: seq<(Position, string)>)
    requires EachOnce(a) && EachOnce(b) && forall x, y | x in a && y in b :: x.0 != y.0
    ensures EachOnce(a + b)
  {
    var all := a + b;
    forall i, j | 0 <= i < j < |all| ensures all[i].0 != all[j].0 {
      if i < |a| <= j {
        assert a[i] in a && b[j - |a|] in b;
      }
    }
  }

  lemma {:induction false} PositionsOnce(v: Json)
    ensures EachOnce(Positions(v))
    decreases v, 1
  {
    match v
    case JObject(fields) =>
      MemberPositionsOnce(v, Sorted(fields.Keys));
    case JArray(items) =>
      ItemPositionsOnce(v, 0);
    case _ =>
  }

  lemma {:induction false} MemberPositionsOnce(v: Json, keys: seq<string>)
    requires v.JObject? && (forall k | k in keys :: k in v.fields) && StrictlyAscending(keys)
    ensures EachOnce(MemberPositions(v, keys))
    decreases v, 0, |keys|
  {
    if keys != [] {
      TailMembers(keys);
      MemberPositionsOnce(v, keys[1..]);
      var here, rest := OneMemberPositions(v, keys[0]), MemberPositions(v, keys[1..]);
      if !(keys[0] == "$ref" && v.fields[keys[0]].JString?) {
        PositionsOnce(v.fields[keys[0]]);
        UnderOnce(Key(keys[0]), Positions(v.fields[keys[0]]));
      }
      forall x, y | x in here && y in rest ensures x.0 != y.0 {
        OneMember(v, keys[0], x.0, x.1);
        MemberPositionsExact(v, keys[1..], y.0, y.1);
      }
      ConcatOnce(here, rest);
    }
  }

  lemma {:induction false} ItemPositionsOnce(v: Json, i: nat)
    requires v.JArray? && i <= |v.items|
    ensures EachOnce(ItemPositions(v, i))
    decreases v, 0, |v.items| - i
  {
    if i < |v.items| {
      PositionsOnce(v.items[i]);
      UnderOnce(Index(i), Positions(v.items[i]));
      ItemPositionsOnce(v, i + 1);
      var here, rest := Under(Index(i), Positions(v.items[i])), ItemPositions(v, i + 1);
      forall x, y | x in here && y in rest ensures x.0 != y.0 {
        InUnder(Index(i), Positions(v.items[i]), x.0, x.1);
        ItemPositionsExact(v, i + 1, y.0, y.1);
      }
      ConcatOnce(here, rest);
    }
  }

  // ---------------------------------------------------------------- the whole walk

  /** Every `$ref` string of the document is yielded, under its own pointer. */
  lemma WalkComplete(v: Json, path: Position, ref: string)
    requires IsRef(v, path, ref)
    ensures (Pointer(path), ref) in Refs(v, "")
  {
    PositionsExact(v, path, ref);
    RefsAreWritten(v, "");
    var found := Positions(v);
    var k :| 0 <= k < |found| && found[k] == (path, ref);
    assert "" + Pointer(path) == Pointer(path);
    assert Written("", found)[k] == (Pointer(path), ref);
  }

  /** Everything yielded is the pointer of a `$ref`, and evaluates to the string yielded with it. */
  lemma WalkSound(v: Json, k: nat)
    requires k < |Refs(v, "")|
    ensures exists path :: IsRef(v, path, Refs(v, "")[k].1) && Refs(v, "")[k].0 == Pointer(path)
    ensures Evaluate(v, Refs(v, "")[k].0) == Some(JString(Refs(v, "")[k].1))
  {
    RefsAreWritten(v, "");
    var (path, ref) := Positions(v)[k];
    assert (path, ref) in Positions(v);
    PositionsExact(v, path, ref);
    assert "" + Pointer(path) == Pointer(path);
    LocatePointer(v, path);
  }

  /** No pointer is yielded twice. */
  lemma WalkOnce(v: Json, j: nat, k: nat)
    requires j < k < |Refs(v, "")|
    ensures Refs(v, "")[j].0 != Refs(v, "")[k].0
  {
    RefsAreWritten(v, "");
    PositionsOnce(v);
    var p, q := Positions(v)[j], Positions(v)[k];
    assert p in Positions(v) && q in Positions(v);
    PositionsExact(v, p.0, p.1);
    PositionsExact(v, q.0, q.1);
    assert "" + Pointer(p.0) == Pointer(p.0) && "" + Pointer(q.0) == Pointer(q.0);
    if Pointer(p.0) == Pointer(q.0) {
      PointerInjective(v, p.0, q.0);
    }
  }
}
