/** JSON-like values as trees; an object is a list of fields in insertion order. */
module Json {
  import opened Basics

  datatype Json =
    | Null | Undefined | Bool(b: bool) | Num(n: int) | Str(s: string)
    | Arr(items: seq<Json>)
    | Obj(fields: seq<Field>)

  datatype Field = Field(key: string, value: Json)

  function Get(fields: seq<Field>, key: string): Option<Json> {
    if fields == [] then None
    else if fields[0].key == key then Some(fields[0].value)
    else Get(fields[1..], key)
  }

  function KeysOf(fields: seq<Field>): (r: seq<string>)
    ensures |r| == |fields|
  {
    seq(|fields|, i requires 0 <= i < |fields| => fields[i].key)
  }

  ghost predicate DistinctKeys(fields: seq<Field>) {
    forall i, j | 0 <= i < j < |fields| :: fields[i].key != fields[j].key
  }

  /** No object has a key twice, at any depth. */
  ghost predicate WellFormed(v: Json) {
    match v
    case Arr(items) => forall x | x in items :: WellFormed(x)
    case Obj(fields) => DistinctKeys(fields) && forall f | f in fields :: WellFormed(f.value)
    case _ => true
  }

  lemma {:induction false} GetAt(fields: seq<Field>, i: nat)
    requires DistinctKeys(fields) && i < |fields|
    ensures Get(fields, fields[i].key) == Some(fields[i].value)
  {
    if i > 0 {
      assert fields[0].key != fields[i].key;
      GetAt(fields[1..], i - 1);
    }
  }

  lemma {:induction false} GetFound(fields: seq<Field>, key: string) returns (i: nat)
    requires Get(fields, key).Some?
    ensures i < |fields| && fields[i] == Field(key, Get(fields, key).value)
  {
    if fields[0].key == key {
      i := 0;
    } else {
      i := GetFound(fields[1..], key);
      i := i + 1;
    }
  }

  lemma {:induction false} GetMissing(fields: seq<Field>, key: string)
    ensures Get(fields, key) == None <==> key !in KeysOf(fields)
  {
    if fields != [] {
      GetMissing(fields[1..], key);
      assert KeysOf(fields) == [fields[0].key] + KeysOf(fields[1..]);
    }
  }

  // ---- equal up to the order of keys -----------------------------------------------------------

  /** The same value up to the order of object keys, at every depth. */
  ghost predicate Equivalent(a: Json, b: Json)
    decreases a
  {
    match a
    case Arr(items) =>
      b.Arr? && |items| == |b.items| && forall i | 0 <= i < |items| :: Equivalent(items[i], b.items[i])
    case Obj(fields) =>
      && b.Obj? && |fields| == |b.fields|
      && forall i | 0 <= i < |fields| ::
           var other := Get(b.fields, fields[i].key);
           other.Some? && Equivalent(fields[i].value, other.value)
    case _ => a == b
  }
}
