/**
 JSON values, the canonical printer `json.dumps(sort_keys=True, separators=(",", ":"),
 ensure_ascii=False)`, and the full reader `json.loads` (sections 2-7 of RFC 8259): optional
 whitespace, optional escapes, keys in any order, and repeated keys either refused or last-wins.
 */
module Json {
  import opened Outcomes
  import opened Text
  import opened Numerals

  datatype Json =
    | JNull
    | JBool(b: bool)
    | JInt(n: int)
    | JString(s: string)
    | JArray(items: seq<Json>)
    | JObject(fields: map<string, Json>)

  // ---------------------------------------------------------------- printer

  const HEX := "0123456789abcdef"

  /** Only the quotation mark, the reverse solidus and the control characters are escaped. */
  function EscapeChar(c: char): (r: string)
    ensures r != []
  {
    if c == '\"' then "\\\""
    else if c == '\\' then "\\\\"
    else if c == '\n' then "\\n"
    else if c == '\r' then "\\r"
    else if c == '\t' then "\\t"
    else if c == 12 as char then "\\f"
    else if c == 8 as char then "\\b"
    else if (c as int) < 0x20 then "\\u00" + [HEX[c as int / 16], HEX[c as int % 16]]
    else [c]
  }

  function EscapeText(s: string): string {
    if s == [] then [] else EscapeChar(s[0]) + EscapeText(s[1..])
  }

  function Quote(s: string): string {
    "\"" + EscapeText(s) + "\""
  }

  function IntText(n: int): string {
    if n < 0 then "-" + NatText(-n) else NatText(n)
  }

  function Print(v: Json): string
    decreases v, 1
  {
    match v
    case JNull => "null"
    case JBool(b) => if b then "true" else "false"
    case JInt(n) => IntText(n)
    case JString(s) => Quote(s)
    case JArray(items) => "[" + (if items == [] then "]" else PrintItems(items))
    case JObject(fields) => "{" + (if fields == map[] then "}" else PrintMembers(v, Sorted(fields.Keys)))
  }

  /** The items of a nonempty array, up to and including the closing bracket. */
  function PrintItems(items: seq<Json>): string
    requires items != []
    decreases items, 0
  {
    Print(items[0]) + (if |items| == 1 then "]" else "," + PrintItems(items[1..]))
  }

  /** The members of `v` under `keys`, up to and including the closing brace. */
  function PrintMembers(v: Json, keys: seq<string>): string
    requires v.JObject? && keys != [] && forall k | k in keys :: k in v.fields
    decreases v, 0, |keys|
  {
    Quote(keys[0]) + ":" + Print(v.fields[keys[0]])
    + (if |keys| == 1 then "}" else "," + PrintMembers(v, keys[1..]))
  }

  // ---------------------------------------------------------------- reader

  predicate IsJsonSpace(c: char) { c == ' ' || c == '\t' || c == '\n' || c == '\r' }

  function SkipSpace(s: string): (r: string)
    ensures |r| <= |s|
  {
    if s != [] && IsJsonSpace(s[0]) then SkipSpace(s[1..]) else s
  }

  function HexValue(c: char): Option<nat> {
    if '0' <= c <= '9' then Some(c as int - '0' as int)
    else if 'a' <= c <= 'f' then Some(c as int - 'a' as int + 10)
    else if 'A' <= c <= 'F' then Some(c as int - 'A' as int + 10)
    else None
  }

  /** The four hexadecimal digits of a `\u` escape. */
  function Hex4(s: string): (r: Option<nat>)
    ensures r.Some? ==> |s| >= 4 && r.value < 0x10000
  {
    if |s| < 4 then None else
    var a :- HexDigit(s[0]);
    var b :- HexDigit(s[1]);
    var c :- HexDigit(s[2]);
    var d :- HexDigit(s[3]);
    Some(a * 4096 + b * 256 + c * 16 + d)
  }

  function HexDigit(c: char): (r: Option<nat>)
    ensures r.Some? ==> r.value < 16
  {
    HexValue(c)
  }

  /** A `\u` escape, combining a surrogate pair. A lone surrogate has no scalar value. */
  function UnicodeEscape(s: string): (r: Option<(char, string)>)
    ensures r.Some? ==> |r.value.1| < |s|
  {
    var n :- Hex4(s);
    if 0xD800 <= n < 0xDC00 then
      if |s| < 6 || s[4] != '\\' || s[5] != 'u' then None else
      var m :- Hex4(s[6..]);
      if 0xDC00 <= m < 0xE000 then
        Some(((0x10000 + (n - 0xD800) * 1024 + (m - 0xDC00)) as char, s[10..]))
      else None
    else if 0xDC00 <= n < 0xE000 then None
    else Some((n as char, s[4..]))
  }

  /** What follows a reverse solidus. */
  function Escape(s: string): (r: Option<(char, string)>)
    ensures r.Some? ==> |r.value.1| < |s|
  {
    if s == [] then None
    else if s[0] == 'u' then UnicodeEscape(s[1..])
    else if s[0] == '\"' || s[0] == '\\' || s[0] == '/' then Some((s[0], s[1..]))
    else if s[0] == 'b' then Some((8 as char, s[1..]))
    else if s[0] == 'f' then Some((12 as char, s[1..]))
    else if s[0] == 'n' then Some(('\n', s[1..]))
    else if s[0] == 'r' then Some(('\r', s[1..]))
    else if s[0] == 't' then Some(('\t', s[1..]))
    else None
  }

  /** The characters of a string after its opening quotation mark; control characters are refused. */
  function ReadChars(s: string): (r: Option<(string, string)>)
    ensures r.Some? ==> |r.value.1| < |s|
    decreases |s|
  {
    if s == [] then None
    else if s[0] == '\"' then Some(([], s[1..]))
    else if s[0] == '\\' then
      var (c, rest) :- Escape(s[1..]);
      var (cs, after) :- ReadChars(rest);
      Some(([c] + cs, after))
    else if (s[0] as int) < 0x20 then None
    else
      var (cs, after) :- ReadChars(s[1..]);
      Some(([s[0]] + cs, after))
  }

  /** True when the text after an integer part makes the literal a float. */
  predicate FloatTail(s: string) {
    || (|s| >= 2 && s[0] == '.' && IsDigit(s[1]))
    || (|s| >= 2 && (s[0] == 'e' || s[0] == 'E') && IsDigit(s[1]))
    || (|s| >= 3 && (s[0] == 'e' || s[0] == 'E') && (s[1] == '+' || s[1] == '-') && IsDigit(s[2]))
  }

  function ReadNat(s: string): (r: Option<(nat, string)>)
    ensures r.Some? ==> |r.value.1| < |s|
  {
    var k := DigitRun(s);
    if k == 0 then None else
    var used := if s[0] == '0' then 1 else k;
    assert s[..used] == s[..k][..used];
    if FloatTail(s[used..]) then None else Some((NatValue(s[..used]), s[used..]))
  }

  function ReadInt(s: string): (r: Option<(int, string)>)
    ensures r.Some? ==> |r.value.1| < |s|
  {
    if s != [] && s[0] == '-' then
      var (magnitude, rest) :- ReadNat(s[1..]);
      var n: int := magnitude;
      Some((-n, rest))
    else
      var (n, rest) :- ReadNat(s);
      Some((n, rest))
  }

  /** One value at the start of `s`. With `unique`, a repeated object key is refused. */
  function Read(s: string, unique: bool): (r: Option<(Json, string)>)
    ensures r.Some? ==> |r.value.1| < |s|
    decreases |s|, 1
  {
    if s == [] then None
    else if s[0] == '\"' then
      var (cs, rest) :- ReadChars(s[1..]);
      Some((JString(cs), rest))
    else if s[0] == '{' then
      var t := SkipSpace(s[1..]);
      if t != [] && t[0] == '}' then Some((JObject(map[]), t[1..])) else
      var (pairs, rest) :- ReadMembers(t, unique);
      var fields :- FromPairs(pairs, unique);
      Some((JObject(fields), rest))
    else if s[0] == '[' then
      var t := SkipSpace(s[1..]);
      if t != [] && t[0] == ']' then Some((JArray([]), t[1..])) else
      var (items, rest) :- ReadItems(t, unique);
      Some((JArray(items), rest))
    else if "null" <= s then Some((JNull, s[4..]))
    else if "true" <= s then Some((JBool(true), s[4..]))
    else if "false" <= s then Some((JBool(false), s[5..]))
    else
      var (n, rest) :- ReadInt(s);
      Some((JInt(n), rest))
  }

  function ReadItems(s: string, unique: bool): (r: Option<(seq<Json>, string)>)
    ensures r.Some? ==> |r.value.1| < |s|
    decreases |s|, 2
  {
    var (v, rest) :- Read(s, unique);
    var t := SkipSpace(rest);
    if t != [] && t[0] == ']' then Some(([v], t[1..]))
    else if t != [] && t[0] == ',' then
      var (vs, after) :- ReadItems(SkipSpace(t[1..]), unique);
      Some(([v] + vs, after))
    else None
  }

  /** One `key : value`, and what follows it after any blanks. */
  function ReadMember(s: string, unique: bool): (r: Option<(string, Json, string)>)
    ensures r.Some? ==> |r.value.2| < |s|
    decreases |s|, 2
  {
    if s == [] || s[0] != '\"' then None else
    var (key, afterKey) :- ReadChars(s[1..]);
    var colon := SkipSpace(afterKey);
    if colon == [] || colon[0] != ':' then None else
    var (v, rest) :- Read(SkipSpace(colon[1..]), unique);
    Some((key, v, SkipSpace(rest)))
  }

  function ReadMembers(s: string, unique: bool): (r: Option<(seq<(string, Json)>, string)>)
    ensures r.Some? ==> |r.value.1| < |s|
    decreases |s|, 3
  {
    var (key, v, t) :- ReadMember(s, unique);
    if t != [] && t[0] == '}' then Some(([(key, v)], t[1..]))
    else if t != [] && t[0] == ',' then
      var (more, after) :- ReadMembers(SkipSpace(t[1..]), unique);
      Some(([(key, v)] + more, after))
    else None
  }

  /** The object hook: later pairs win, unless repeated keys are refused. */
  function FromPairs(pairs: seq<(string, Json)>, unique: bool): Option<map<string, Json>> {
    if pairs == [] then Some(map[]) else
    var last := pairs[|pairs| - 1];
    var earlier :- FromPairs(pairs[..|pairs| - 1], unique);
    if unique && last.0 in earlier then None else Some(earlier[last.0 := last.1])
  }

  /** `json.loads`: exactly one value, with whitespace around it. */
  function Loads(text: string, unique: bool): Option<Json> {
    var (v, rest) :- Read(SkipSpace(text), unique);
    if SkipSpace(rest) == [] then Some(v) else None
  }
}
