/** The JSON values that reach the application after `JSON.parse`. */
module JsonData {
  import opened Wrappers

  datatype Json =
    | JNull
    | JBool(b: bool)
    | JNum(n: real)
    | JStr(s: string)
    | JArr(items: seq<Json>)
    | JObj(fields: map<string, Json>)

  /**
   * What `JSON.parse(JSON.stringify(x))` makes of an arbitrary JavaScript value:
   * a JSON value, or a failure (a circular structure, a BigInt, `undefined`).
   */
  datatype RawInput = Representable(json: Json) | Unrepresentable

  /** A property of an object; JavaScript reads an absent one as `undefined`, here `None`. */
  function Prop(v: Json, key: string): Option<Json> {
    if v.JObj? && key in v.fields then Some(v.fields[key]) else None
  }

  /** The text of a string value; other values have none. */
  function TextOf(j: Json): string {
    if j.JStr? then j.s else ""
  }

  /** The number of a numeric value; other values count as zero. */
  function NumberOf(j: Json): real {
    if j.JNum? then j.n else 0.0
  }
}
