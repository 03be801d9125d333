/** The parsed form of a redirect-list file. The YAML parser itself is not
    part of the model: each file arrives with the outcome of parsing it. */
module Yaml {
  import opened Wrappers

  /** A value as the YAML parser hands it to JavaScript. */
  datatype Value =
    | Str(s: string)
    | Num(n: real)
    | Bool(b: bool)
    | Null
    | Seq(items: seq<Value>)
    | Map(fields: Fields)

  /** The properties of a plain object. */
  type Fields = map<string, Value>

  /** `parse(contents)` either throws or returns a value. */
  datatype ParseOutcome = ParseError | Parsed(data: Value)

  /** One YAML file: its name (as the glob listed it) and the parse outcome. */
  datatype SourceFile = SourceFile(name: string, parsed: ParseOutcome)

  /** `typeof v === "object"`: true of null and of arrays as well. */
  predicate IsObject(v: Value) {
    v.Null? || v.Seq? || v.Map?
  }

  /** The property read `v[key]`: `None` is `undefined`. Reading a property
      of `null` throws, so no caller may pass `Null`. Arrays produced by the
      parser carry no string-named data properties. */
  function Get(v: Value, key: string): (r: Option<Value>)
    requires !v.Null?
    ensures r.Some? <==> v.Map? && key in v.fields
    ensures r.Some? ==> r.value == v.fields[key]
  {
    if v.Map? && key in v.fields then Some(v.fields[key]) else None
  }

  /** Every element of a top-level list is non-null. */
  predicate ItemsNullFree(items: seq<Value>) {
    forall j | 0 <= j < |items| :: items[j] != Null
  }

  predicate FileNullFree(f: SourceFile) {
    f.parsed.Parsed? && f.parsed.data.Seq? ==> ItemsNullFree(f.parsed.data.items)
  }

  /** No file lists a `null` record (the scripts would throw on `entry.from`). */
  predicate NullFree(files: seq<SourceFile>) {
    forall i | 0 <= i < |files| :: FileNullFree(files[i])
  }
}
