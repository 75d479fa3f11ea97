/** Redaction and classification of records by the shape of their keys. */
module Redactor {
  import opened Basics
  import opened Json

  const REDACTED: Json := Str("__REDACTED__")
  const SECRET_WORDS: seq<string> := ["secret", "password", "token", "apikey", "api_key", "cookie", "authorization"]

  predicate HasWordAt(s: string, word: string, i: nat) {
    i + |word| <= |s| && SameFolded(s[i..i + |word|], word)
  }

  predicate ContainsFolded(s: string, word: string) {
    exists i | 0 <= i <= |s| :: HasWordAt(s, word, i)
  }

  predicate IsSecretKey(key: string) {
    exists i | 0 <= i < |SECRET_WORDS| :: ContainsFolded(key, SECRET_WORDS[i])
  }

  /** A word in any case, with anything before and after it. */
  ghost predicate Around(s: string, before: string, word: string, after: string) {
    s == before + word + after
  }

  lemma WordAnywhere(s: string, word: string)
    ensures ContainsFolded(s, word) <==> exists a, w, b :: Around(s, a, w, b) && SameFolded(w, word)
  {
    if i :| 0 <= i <= |s| && HasWordAt(s, word, i) {
      assert Around(s, s[..i], s[i..i + |word|], s[i + |word|..]);
    }
    if a, w, b :| Around(s, a, w, b) && SameFolded(w, word) {
      assert s[|a|..|a| + |word|] == w;
      assert HasWordAt(s, word, |a|);
    }
  }

  /** A key is secret exactly if one of the seven words stands in it, at any place and in any case. */
  lemma SecretKeyExactly(key: string)
    ensures IsSecretKey(key) <==>
      exists a, w, b :: Around(key, a, w, b) && (
        || SameFolded(w, "secret") || SameFolded(w, "password") || SameFolded(w, "token") || SameFolded(w, "apikey")
        || SameFolded(w, "api_key") || SameFolded(w, "cookie") || SameFolded(w, "authorization"))
  {
    hide ContainsFolded, SameFolded, Around;
    forall i | 0 <= i < |SECRET_WORDS|
      ensures ContainsFolded(key, SECRET_WORDS[i]) <==>
        exists a, w, b :: Around(key, a, w, b) && SameFolded(w, SECRET_WORDS[i])
    {
      WordAnywhere(key, SECRET_WORDS[i]);
    }
    if a, w, b :| Around(key, a, w, b) && exists i :: 0 <= i < |SECRET_WORDS| && SameFolded(w, SECRET_WORDS[i]) {
      assert IsSecretKey(key);
    }
    SevenWords();
  }

  lemma SevenWords()
    ensures forall w ::
      (exists i :: 0 <= i < |SECRET_WORDS| && SameFolded(w, SECRET_WORDS[i])) <==>
        || SameFolded(w, "secret") || SameFolded(w, "password") || SameFolded(w, "token") || SameFolded(w, "apikey")
        || SameFolded(w, "api_key") || SameFolded(w, "cookie") || SameFolded(w, "authorization")
  {
    hide SameFolded;
    assert SECRET_WORDS[0] == "secret" && SECRET_WORDS[1] == "password" && SECRET_WORDS[2] == "token";
    assert SECRET_WORDS[3] == "apikey" && SECRET_WORDS[4] == "api_key" && SECRET_WORDS[5] == "cookie";
    assert SECRET_WORDS[6] == "authorization";
  }

  // ---- redaction -------------------------------------------------------------------------------

  function Redact(v: Json): Json {
    match v
    case Arr(items) => Arr(seq(|items|, i requires 0 <= i < |items| => Redact(items[i])))
    case Obj(fields) => Obj(seq(|fields|, i requires 0 <= i < |fields| =>
      Field(fields[i].key, if IsSecretKey(fields[i].key) then REDACTED else Redact(fields[i].value))))
    case _ => v
  }

  predicate IsNested(v: Json) {
    v.Arr? || v.Obj?
  }

  /** The walk itself: a fresh array or object is filled entry by entry. */
  method RedactInternal(value: Json) returns (r: Json)
    ensures r == Redact(value)
    decreases value
  {
    match value {
      case Arr(items) =>
        var out: seq<Json> := [];
        for i := 0 to |items|
          invariant |out| == i && forall j | 0 <= j < i :: out[j] == Redact(items[j])
        {
          if IsNested(items[i]) {
            var x := RedactInternal(items[i]);
            out := out + [x];
          } else {
            out := out + [items[i]];
          }
        }
        assert out == Redact(value).items;
        return Arr(out);
      case Obj(fields) =>
        var out: seq<Field> := [];
        for i := 0 to |fields|
          invariant |out| == i && forall j | 0 <= j < i :: out[j] == Redact(value).fields[j]
        {
          var key, child := fields[i].key, fields[i].value;
          if IsSecretKey(key) {
            out := out + [Field(key, REDACTED)];
            continue;
          }
          if IsNested(child) {
            var x := RedactInternal(child);
            out := out + [Field(key, x)];
          } else {
            out := out + [Field(key, child)];
          }
        }
        assert out == Redact(value).fields;
        return Obj(out);
      case _ => return value;
    }
  }

  lemma {:induction false} RedactIdempotent(v: Json)
    ensures Redact(Redact(v)) == Redact(v)
  {
    hide IsSecretKey;
    match v {
      case Arr(items) =>
        forall i | 0 <= i < |items| ensures Redact(Redact(items[i])) == Redact(items[i]) { RedactIdempotent(items[i]); }
        assert Redact(Redact(v)).items == Redact(v).items;
      case Obj(fields) =>
        forall i | 0 <= i < |fields| ensures Redact(Redact(v)).fields[i] == Redact(v).fields[i] {
          assert fields[i] in fields;
          RedactIdempotent(fields[i].value);
        }
        assert Redact(Redact(v)).fields == Redact(v).fields;
      case _ =>
    }
  }

  // ---- noninterference -------------------------------------------------------------------------

  /** The same shape and keys, and the same values except below secret-shaped keys. */
  ghost predicate LowEqual(a: Json, b: Json)
    decreases a
  {
    match a
    case Arr(items) =>
      b.Arr? && |items| == |b.items| && forall i | 0 <= i < |items| :: LowEqual(items[i], b.items[i])
    case Obj(fields) =>
      && b.Obj? && |fields| == |b.fields|
      && forall i | 0 <= i < |fields| ::
           && fields[i].key == b.fields[i].key
           && (IsSecretKey(fields[i].key) || LowEqual(fields[i].value, b.fields[i].value))
    case _ => a == b
  }

  /** Redaction hides exactly what lies below secret-shaped keys. */
  lemma {:induction false} RedactHidesExactly(a: Json, b: Json)
    ensures LowEqual(a, b) <==> Redact(a) == Redact(b)
    decreases a
  {
    hide IsSecretKey;
    match a {
      case Arr(items) =>
        if b.Arr? && |items| == |b.items| {
          forall i | 0 <= i < |items|
            ensures LowEqual(items[i], b.items[i]) <==> Redact(items[i]) == Redact(b.items[i])
          {
            RedactHidesExactly(items[i], b.items[i]);
          }
          if LowEqual(a, b) { assert Redact(a).items == Redact(b).items; }
          if Redact(a) == Redact(b) {
            forall i | 0 <= i < |items| ensures LowEqual(items[i], b.items[i]) {
              assert Redact(a).items[i] == Redact(b).items[i];
            }
          }
        } else if b.Arr? {
          assert |Redact(a).items| != |Redact(b).items|;
        }
      case Obj(fields) =>
        if b.Obj? && |fields| == |b.fields| {
          forall i | 0 <= i < |fields|
            ensures LowEqual(fields[i].value, b.fields[i].value) <==>
              Redact(fields[i].value) == Redact(b.fields[i].value)
          {
            assert fields[i] in fields;
            RedactHidesExactly(fields[i].value, b.fields[i].value);
          }
          if LowEqual(a, b) { assert Redact(a).fields == Redact(b).fields; }
          if Redact(a) == Redact(b) {
            forall i | 0 <= i < |fields|
              ensures fields[i].key == b.fields[i].key
              ensures IsSecretKey(fields[i].key) || LowEqual(fields[i].value, b.fields[i].value)
            {
              assert Redact(a).fields[i] == Redact(b).fields[i];
            }
          }
        } else if b.Obj? {
          assert |Redact(a).fields| != |Redact(b).fields|;
        }
      case _ =>
    }
  }

  /** Below a secret-shaped key there is nothing but the redaction mark, at any depth. */
  ghost predicate Sealed(v: Json) {
    match v
    case Arr(items) => forall x | x in items :: Sealed(x)
    case Obj(fields) =>
      forall f | f in fields :: if IsSecretKey(f.key) then f.value == REDACTED else Sealed(f.value)
    case _ => true
  }

  lemma {:induction false} RedactSeals(v: Json)
    ensures Sealed(v) <==> Redact(v) == v
  {
    hide IsSecretKey;
    match v {
      case Arr(items) =>
        forall i | 0 <= i < |items| ensures Sealed(items[i]) <==> Redact(v).items[i] == items[i] {
          RedactSeals(items[i]);
        }
        if Sealed(v) { assert Redact(v).items == items; }
      case Obj(fields) =>
        forall i | 0 <= i < |fields|
          ensures (if IsSecretKey(fields[i].key) then fields[i].value == REDACTED else Sealed(fields[i].value)) <==>
            Redact(v).fields[i] == fields[i]
        {
          assert fields[i] in fields;
          RedactSeals(fields[i].value);
        }
        if Sealed(v) { assert Redact(v).fields == fields; }
      case _ =>
    }
  }

  /**
   * The redaction of a value is the one value without secrets that differs from it at most below secret-shaped
   * keys: everything else is kept as it is.
   */
  lemma RedactExactly(v: Json, r: Json)
    ensures r == Redact(v) <==> LowEqual(v, r) && Sealed(r)
  {
    RedactIdempotent(v);
    RedactSeals(r);
    RedactHidesExactly(v, r);
  }

  // ---- classification --------------------------------------------------------------------------

  datatype DataClassification = PUBLIC | SECRET

  datatype Classified =
    | Class(c: DataClassification)
    | ClassArr(items: seq<Classified>)
    | ClassObj(fields: seq<ClassField>)

  datatype ClassField = ClassField(key: string, value: Classified)

  function ClassifyValue(key: string): DataClassification {
    if IsSecretKey(key) then SECRET else PUBLIC
  }

  function ClassifyFields(v: Json): Classified {
    match v
    case Arr(items) => ClassArr(seq(|items|, i requires 0 <= i < |items| => ClassifyFields(items[i])))
    case Obj(fields) => ClassObj(seq(|fields|, i requires 0 <= i < |fields| =>
      ClassField(fields[i].key,
        if IsNested(fields[i].value) then ClassifyFields(fields[i].value) else Class(ClassifyValue(fields[i].key)))))
    case _ => Class(PUBLIC)
  }

  /** A place in a value: positions of items and fields from the root down. */
  type Place = seq<nat>

  function ClassAt(c: Classified, place: Place): Option<Classified>
    decreases |place|
  {
    if place == [] then Some(c)
    else
      match c
      case ClassArr(items) => if place[0] < |items| then ClassAt(items[place[0]], place[1..]) else None
      case ClassObj(fields) => if place[0] < |fields| then ClassAt(fields[place[0]].value, place[1..]) else None
      case _ => None
  }

  function ValueAt(v: Json, place: Place): Option<Json>
    decreases |place|
  {
    if place == [] then Some(v)
    else
      match v
      case Arr(items) => if place[0] < |items| then ValueAt(items[place[0]], place[1..]) else None
      case Obj(fields) => if place[0] < |fields| then ValueAt(fields[place[0]].value, place[1..]) else None
      case _ => None
  }

  /** Every leaf the classifier marks SECRET is redacted, itself or through an ancestor k steps from the root. */
  lemma {:induction false} SecretLeavesRedacted(v: Json, place: Place) returns (k: nat)
    requires ClassAt(ClassifyFields(v), place) == Some(Class(SECRET))
    ensures 0 < k <= |place| && ValueAt(Redact(v), place[..k]) == Some(REDACTED)
    decreases |place|
  {
    hide IsSecretKey;
    var n := place[0];
    if v.Obj? && IsSecretKey(v.fields[n].key) {
      assert place[..1][1..] == [];
      k := 1;
    } else if v.Obj? {
      assert IsNested(v.fields[n].value);
      k := SecretLeavesRedacted(v.fields[n].value, place[1..]);
      assert place[..k + 1][1..] == place[1..][..k];
      k := k + 1;
    } else {
      k := SecretLeavesRedacted(v.items[n], place[1..]);
      assert place[..k + 1][1..] == place[1..][..k];
      k := k + 1;
    }
  }
  /** A leaf that is not at the root is SECRET exactly if it is the value of a secret-shaped key. */
  lemma {:induction false} LeafClass(v: Json, place: Place)
    requires place != [] && ValueAt(v, place).Some? && !IsNested(ValueAt(v, place).value)
    ensures
      var n := |place| - 1;
      var parent := ValueAt(v, place[..n]);
      && parent.Some? && ClassAt(ClassifyFields(v), place).Some?
      && (parent.value.Obj? ==> place[n] < |parent.value.fields|)
      && (ClassAt(ClassifyFields(v), place).value == Class(SECRET) <==>
            parent.value.Obj? && IsSecretKey(parent.value.fields[place[n]].key))
      && (ClassAt(ClassifyFields(v), place).value == Class(PUBLIC) <==>
            !(parent.value.Obj? && IsSecretKey(parent.value.fields[place[n]].key)))
    decreases |place|
  {
    hide IsSecretKey;
    var n := |place| - 1;
    if n == 0 {
      assert place[1..] == [];
    } else {
      var child := if v.Arr? then v.items[place[0]] else v.fields[place[0]].value;
      assert IsNested(child);
      LeafClass(child, place[1..]);
      assert place[..n][1..] == place[1..][..n - 1] && place[1..][n - 1] == place[n];
    }
  }
}
