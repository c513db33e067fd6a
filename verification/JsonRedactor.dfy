/** Redaction of audit details (`CanonicalAuditEntry::canonicalize_value`, `sanitize_details`). */
module JsonRedactor {
  import opened Wrappers
  import opened Text

  /** `serde_json::Value`; an object is a map, as its `Map` keeps one value per key. */
  datatype Json =
    | Null
    | Bool(b: bool)
    | Number(n: string)
    | String(s: string)
    | Array(items: seq<Json>)
    | Object(fields: map<string, Json>)

  const SECRET: string := "secret"
  const REDACTED: Json := String("[REDACTED]")

  function Joined(parent: Option<string>, key: string): string {
    if parent.None? then key else parent.value + "." + key
  }

  predicate Sensitive(parent: Option<string>) {
    parent.Some? && Find(parent.value, SECRET).Some?
  }

  /** `canonicalize_value`: `parent` is the dot-joined path of object keys above the value. */
  function Canonical(value: Json, parent: Option<string>): Json
    decreases value
  {
    match value
    case Object(fields) => Object(map k | k in fields :: Canonical(fields[k], Some(Joined(parent, k))))
    case Array(items) => Array(seq(|items|, i requires 0 <= i < |items| => Canonical(items[i], parent)))
    case _ => if Sensitive(parent) then REDACTED else value
  }

  function Canonicalized(value: Json): Json {
    Canonical(value, None)
  }

  datatype Step = Key(key: string) | Index(index: nat)

  /** The value reached from `value` along `path`. */
  function At(value: Json, path: seq<Step>): Option<Json>
    decreases |path|
  {
    if path == [] then Some(value)
    else match path[0]
         case Key(k) => if value.Object? && k in value.fields then At(value.fields[k], path[1..]) else None
         case Index(i) => if value.Array? && i < |value.items| then At(value.items[i], path[1..]) else None
  }

  ghost predicate SecretStep(step: Step) {
    step.Key? && Mentions(step.key, "secret")
  }

  /** Some object key on the path contains "secret" in some ASCII case. */
  ghost predicate SecretOnPath(path: seq<Step>) {
    exists i :: 0 <= i < |path| && SecretStep(path[i])
  }

  /** `c` is what redaction makes of `v`: containers keep their shape, leaves their value unless `masked`. */
  ghost predicate RedactedAs(v: Json, c: Json, masked: bool) {
    match v
    case Array(items) => c.Array? && |c.items| == |items|
    case Object(fields) => c.Object? && c.fields.Keys == fields.Keys
    case _ => c == if masked then String("[REDACTED]") else v
  }

  lemma SensitiveIsMention(parent: Option<string>)
    ensures Sensitive(parent) <==> parent.Some? && Mentions(parent.value, SECRET)
  {
    if parent.Some? && Mentions(parent.value, SECRET) {
      var i :| OccursAt(parent.value, SECRET, i);
    }
  }

  /** A dot cannot lie inside "secret", so testing the joined path tests the keys one by one. */
  lemma JoinedSensitive(parent: Option<string>, key: string)
    ensures Sensitive(Some(Joined(parent, key))) <==> Sensitive(parent) || Mentions(key, SECRET)
  {
    SensitiveIsMention(parent);
    SensitiveIsMention(Some(Joined(parent, key)));
    if parent.Some? {
      var p := parent.value;
      forall i ensures OccursAt(p + "." + key, SECRET, i) <==>
                       OccursAt(p, SECRET, i) || OccursAt(key, SECRET, i - |p| - 1)
      {
        OccursSplit(p, ".", key, SECRET, i);
      }
      if j :| OccursAt(key, SECRET, j) {
        assert OccursAt(p + "." + key, SECRET, j + |p| + 1);
      }
    }
  }

  lemma {:induction false} CanonicalBelow(value: Json, parent: Option<string>, path: seq<Step>)
    ensures At(value, path).Some? <==> At(Canonical(value, parent), path).Some?
    ensures At(value, path).Some? ==>
              RedactedAs(At(value, path).value, At(Canonical(value, parent), path).value,
                         Sensitive(parent) || SecretOnPath(path))
    decreases |path|
  {
    if path != [] {
      var rest := path[1..];
      assert SecretOnPath(path) <==> SecretStep(path[0]) || SecretOnPath(rest) by {
        assert forall i :: 0 <= i < |rest| ==> rest[i] == path[i + 1];
        if i :| 0 <= i < |path| && SecretStep(path[i]) {
          assert i > 0 ==> SecretStep(rest[i - 1]);
        }
      }
      match path[0]
      case Key(k) =>
        if value.Object? && k in value.fields {
          JoinedSensitive(parent, k);
          CanonicalBelow(value.fields[k], Some(Joined(parent, k)), rest);
        }
      case Index(i) =>
        if value.Array? && i < |value.items| {
          CanonicalBelow(value.items[i], parent, rest);
        }
    }
  }

  /**
   Redaction keeps the tree's paths, array lengths and object keys. It replaces a
   leaf exactly when some object key on its path contains "secret" in any ASCII case.
   */
  lemma CanonicalizedAt(value: Json, path: seq<Step>)
    ensures At(value, path).Some? <==> At(Canonicalized(value), path).Some?
    ensures At(value, path).Some? ==>
              RedactedAs(At(value, path).value, At(Canonicalized(value), path).value, SecretOnPath(path))
  {
    CanonicalBelow(value, None, path);
  }

  lemma {:induction false} CanonicalTwice(value: Json, parent: Option<string>)
    ensures Canonical(Canonical(value, parent), parent) == Canonical(value, parent)
    decreases value
  {
    match value
    case Object(fields) =>
      forall k | k in fields {
        CanonicalTwice(fields[k], Some(Joined(parent, k)));
      }
    case Array(items) =>
      forall i | 0 <= i < |items| {
        CanonicalTwice(items[i], parent);
      }
    case _ =>
  }

  /** Redacting redacted details changes nothing. */
  lemma CanonicalizedTwice(value: Json)
    ensures Canonicalized(Canonicalized(value)) == Canonicalized(value)
  {
    CanonicalTwice(value, None);
  }
}
