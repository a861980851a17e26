/** Positions inside a JSON document. */
module JsonPath {
  import opened Outcomes
  import opened Json

  datatype Step = Key(key: string) | Index(index: nat)

  type Position = seq<Step>

  function Child(v: Json, step: Step): Option<Json> {
    match step
    case Key(k) => if v.JObject? && k in v.fields then Some(v.fields[k]) else None
    case Index(i) => if v.JArray? && i < |v.items| then Some(v.items[i]) else None
  }

  /** The value at a position, if the document has that position. */
  function At(v: Json, path: Position): Option<Json>
    decreases |path|
  {
    if path == [] then Some(v) else
    var w :- Child(v, path[0]);
    At(w, path[1..])
  }

  lemma AtUnder(v: Json, step: Step, path: Position)
    requires Child(v, step).Some?
    ensures At(v, [step] + path) == At(Child(v, step).value, path)
  {
    assert ([step] + path)[1..] == path;
  }
}
