/** Python's `==` on decoded JSON: `True` equals 1 and `False` equals 0, at any depth. */
module PythonEquality {
  import opened Json

  /** One representative of each class of equal values. */
  function Normal(v: Json): Json {
    match v
    case JBool(b) => JInt(if b then 1 else 0)
    case JArray(items) => JArray(seq(|items|, k requires 0 <= k < |items| => Normal(items[k])))
    case JObject(fields) => JObject(map k | k in fields :: Normal(fields[k]))
    case _ => v
  }

  predicate Equals(v: Json, w: Json) {
    Normal(v) == Normal(w)
  }

  /** Objects are equal exactly when they have the same keys and equal values under them. */
  lemma ObjectsEqual(v: Json, w: Json)
    requires v.JObject? && w.JObject?
    ensures Equals(v, w) <==>
              v.fields.Keys == w.fields.Keys && forall k | k in v.fields :: Equals(v.fields[k], w.fields[k])
  {
    var a, b := Normal(v).fields, Normal(w).fields;
    assert a.Keys == v.fields.Keys && b.Keys == w.fields.Keys;
    if v.fields.Keys == w.fields.Keys && forall k | k in v.fields :: Equals(v.fields[k], w.fields[k]) {
      assert a == b;
    }
    if Equals(v, w) {
      assert a == b;
      forall k | k in v.fields ensures Equals(v.fields[k], w.fields[k]) {
        assert a[k] == b[k];
      }
    }
  }

  lemma ArraysEqual(v: Json, w: Json)
    requires v.JArray? && w.JArray?
    ensures Equals(v, w) <==>
              |v.items| == |w.items| && forall k | 0 <= k < |v.items| :: Equals(v.items[k], w.items[k])
  {
    var a, b := Normal(v).items, Normal(w).items;
    if |v.items| == |w.items| && forall k | 0 <= k < |v.items| :: Equals(v.items[k], w.items[k]) {
      assert a == b;
    }
    if Equals(v, w) {
      assert a == b && |v.items| == |w.items|;
      forall k | 0 <= k < |v.items| ensures Equals(v.items[k], w.items[k]) {
        assert a[k] == b[k];
      }
    }
  }

  predicate Numeric(v: Json) {
    v.JInt? || v.JBool?
  }

  function NumberOf(v: Json): int
    requires Numeric(v)
  {
    if v.JInt? then v.n else if v.b then 1 else 0
  }

  /**
   Numbers and truth values are equal as numbers; otherwise equal values are of one kind, and scalars are the
   same.
   */
  lemma ScalarsEqual(v: Json, w: Json)
    ensures Numeric(v) && Numeric(w) ==> (Equals(v, w) <==> NumberOf(v) == NumberOf(w))
    ensures Numeric(v) && !Numeric(w) ==> !Equals(v, w)
    ensures v.JNull? ==> (Equals(v, w) <==> w.JNull?)
    ensures v.JString? ==> (Equals(v, w) <==> w == v)
    ensures v.JArray? && Equals(v, w) ==> w.JArray?
    ensures v.JObject? && Equals(v, w) ==> w.JObject?
  {
  }
}
