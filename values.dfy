/** The Java objects the core passes around, and the audit record (PeltasEntry). */
module Values {
  import opened Wrappers

  /**
   * A Java value as the core sees it: null, a String, a number, a Boolean,
   * a Date (milliseconds), a Map or a List/Collection.
   */
  datatype Value =
    | Null
    | Str(s: string)
    | Num(n: int)
    | Bool(b: bool)
    | DateV(millis: int)
    | MapV(m: map<string, Value>)
    | ListV(items: seq<Value>)

  /** Map.get: an absent key and a key mapped to null both give null. */
  function Get(m: map<string, Value>, k: string): Value
  {
    if k in m then m[k] else Null
  }

  /** PeltasEntry: one audit record; the nullable header fields are options. */
  datatype Entry = Entry(
    id: Option<string>,
    application: Option<string>,
    time: Option<int>,
    user: Option<string>,
    values: map<string, Value>)
}
