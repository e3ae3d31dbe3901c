/** Decoded JavaScript values, as `JSON.parse` hands them to the quote
    widget, and the one operation the widget performs on them: reading a
    property. */
module JsValues {

  /** A value produced by `JSON.parse`, plus `undefined`, which is what
      reading an absent property yields. Numbers are abstracted to integers;
      the widget only asks whether a value is a string. */
  datatype JsValue =
    | JsNull
    | JsUndefined
    | JsBool(b: bool)
    | JsNumber(n: int)
    | JsString(s: string)
    | JsArray(items: seq<JsValue>)
    | JsObject(fields: map<string, JsValue>)

  /** Reading a property of `null` or `undefined` throws a `TypeError`. */
  predicate Nullish(v: JsValue) {
    v.JsNull? || v.JsUndefined?
  }

  /** `v[key]` for a value that is not nullish and a key that names no
      property of the String, Array, Number or Boolean prototypes (the keys
      read here are `text`, `category` and `title`): an own property of an
      object, and `undefined` otherwise. */
  function Prop(v: JsValue, key: string): (r: JsValue)
    requires !Nullish(v)
    ensures r != JsUndefined ==> v.JsObject? && key in v.fields && v.fields[key] == r
    ensures v.JsObject? && key in v.fields ==> r == v.fields[key]
  {
    match v
    case JsObject(fields) => if key in fields then fields[key] else JsUndefined
    case _ => JsUndefined
  }
}
