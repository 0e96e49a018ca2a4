/**
 * The JSON tree produced by the projector, `serde_json::Value`. An object is
 * kept as the sequence of (key, value) pairs handed to `collect()`, before
 * serde_json's map decides key order and duplicates.
 */
module Json {

  /** A `serde_json::Number`: an integer, or a finite float (by its bits). */
  datatype JsonNumber =
    | Int(i: int)
    /** an `f64`, by its IEEE 754 bit pattern */
    | F64(bits64: bv64)
    /** an `f32` widened to `f64`; widening is exact, so the `f32` bits identify it */
    | F32(bits32: bv32)

  datatype JsonValue =
    | Null
    | Bool(b: bool)
    | Number(n: JsonNumber)
    | String(s: string)
    | Array(items: seq<JsonValue>)
    | Object(members: seq<(string, JsonValue)>)

  /** The same tree with every object key erased: what the data is, ignoring names. */
  function Skeleton(j: JsonValue): (r: JsonValue)
    decreases j
  {
    match j
    case Array(items) => Array(seq(|items|, i requires 0 <= i < |items| => Skeleton(items[i])))
    case Object(members) =>
      Object(seq(|members|, i requires 0 <= i < |members| => ("", Skeleton(members[i].1))))
    case _ => j
  }
}
