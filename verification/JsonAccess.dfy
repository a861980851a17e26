/** Reading fields of JSON values, and JSON documents kept in files with a final newline. */
module JsonAccess {
  import opened Outcomes
  import opened Utf8
  import opened Json
  import opened JsonRoundTrip

  function Field(v: Json, key: string): Option<Json> {
    if v.JObject? && key in v.fields then Some(v.fields[key]) else None
  }

  function TextField(v: Json, key: string): Option<string> {
    var w :- Field(v, key);
    if w.JString? then Some(w.s) else None
  }

  function IntField(v: Json, key: string): Option<int> {
    var w :- Field(v, key);
    if w.JInt? then Some(w.n) else None
  }

  /** A string, or an explicit null. */
  function NullableField(v: Json, key: string): Option<Option<string>> {
    var w :- Field(v, key);
    if w.JString? then Some(Some(w.s)) else if w.JNull? then Some(None) else None
  }

  function ArrayField(v: Json, key: string): Option<seq<Json>> {
    var w :- Field(v, key);
    if w.JArray? then Some(w.items) else None
  }

  function ReadAll<A>(items: seq<Json>, read: Json -> Option<A>): (r: Option<seq<A>>)
    ensures r.Some? ==> |r.value| == |items| && forall k | 0 <= k < |items| :: read(items[k]) == Some(r.value[k])
  {
    if items == [] then Some([]) else
    var first :- read(items[0]);
    var rest :- ReadAll(items[1..], read);
    Some([first] + rest)
  }

  lemma {:induction false} ReadAllOf<A>(items: seq<Json>, read: Json -> Option<A>, values: seq<A>)
    requires |items| == |values| && forall k | 0 <= k < |items| :: read(items[k]) == Some(values[k])
    ensures ReadAll(items, read) == Some(values)
  {
    if items != [] {
      ReadAllOf(items[1..], read, values[1..]);
      assert values == [values[0]] + values[1..];
    }
  }

  /** `canonical_json_bytes`: the canonical text and a newline. */
  function LineBytes(v: Json): Bytes {
    Encode(Print(v) + "\n")
  }

  /** `json.loads` of a file. */
  function ReadJson(data: Bytes): Option<Json> {
    var text :- Decode(data);
    Loads(text, false)
  }

  lemma ReadJsonLine(v: Json)
    ensures ReadJson(LineBytes(v)) == Some(v)
  {
    DecodeEncode(Print(v) + "\n");
    LoadsPrintLine(v, false);
  }

  function NullableJson(s: Option<string>): Json {
    if s.Some? then JString(s.value) else JNull
  }

  function TextArray(ids: seq<string>): Json {
    JArray(seq(|ids|, k requires 0 <= k < |ids| => JString(ids[k])))
  }

  lemma TextArrayInjective(a: seq<string>, b: seq<string>)
    requires TextArray(a) == TextArray(b)
    ensures a == b
  {
    assert |a| == |TextArray(a).items| == |TextArray(b).items| == |b|;
    forall k | 0 <= k < |a| ensures a[k] == b[k] {
      assert TextArray(a).items[k] == JString(a[k]) && TextArray(b).items[k] == JString(b[k]);
    }
  }

  /** What each way of reading a field accepts: the key is there, with a value of the kind asked for. */
  lemma AccessExact(v: Json, key: string, w: Json, s: string, n: int, x: Option<string>, items: seq<Json>)
    ensures Field(v, key) == Some(w) <==> v.JObject? && key in v.fields && v.fields[key] == w
    ensures TextField(v, key) == Some(s) <==> Field(v, key) == Some(JString(s))
    ensures IntField(v, key) == Some(n) <==> Field(v, key) == Some(JInt(n))
    ensures NullableField(v, key) == Some(x) <==> Field(v, key) == Some(if x.Some? then JString(x.value) else JNull)
    ensures ArrayField(v, key) == Some(items) <==> Field(v, key) == Some(JArray(items))
  {
  }
}
