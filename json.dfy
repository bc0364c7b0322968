/** The JSON value model the diff works over: Gson's JsonElement hierarchy
    (JsonNull, JsonPrimitive, JsonObject, JsonArray), as immutable values. */
module Json {

  /** Absence of an operand (a Java `null` reference), kept apart from the
      JSON `Null` value. */
  datatype Option<+T> = None | Some(value: T)

  /** The payload of a JsonPrimitive. Numbers are integers: floating point
      and Gson's number widening are not part of this model. */
  datatype Prim = PInt(i: int) | PStr(s: string) | PBool(b: bool)

  /** A JSON value. `Prim` is a single constructor because the diff
      dispatches on the Java class, and every primitive kind shares the one
      class JsonPrimitive. An object is a map: JsonObject equality ignores
      insertion order. */
  datatype Value =
    | Null
    | Prim(p: Prim)
    | Obj(fields: map<string, Value>)
    | Arr(elems: seq<Value>)

  /** The Java runtime class of a JsonElement. */
  datatype JsonClass = NullClass | PrimitiveClass | ObjectClass | ArrayClass

  function ClassOf(v: Value): (c: JsonClass)
  {
    match v
    case Null => NullClass
    case Prim(_) => PrimitiveClass
    case Obj(_) => ObjectClass
    case Arr(_) => ArrayClass
  }

  /** The empty JSON object `{}`, the diff's "no difference" answer. */
  const Empty: Value := Obj(map[])
}
