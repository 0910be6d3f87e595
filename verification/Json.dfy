/** The values that channels, logs and remote calls carry. */
module Json {
  import opened Wrappers

  /** A JSON document. Integers and floating-point numbers stay distinct, as they do
      in the source's representation; a float is an exact real (rounding is not modelled). */
  datatype Value =
    | Null
    | Bool(b: bool)
    | Int(i: int)
    | Float(f: real)
    | Str(s: string)
    | Array(items: seq<Value>)
    | Object(fields: map<string, Value>)
  {
    /** The numeric reading of a value, if it has one. */
    function AsFloat(): Option<real> {
      match this
      case Int(i) => Some(i as real)
      case Float(f) => Some(f)
      case _ => None
    }
  }
}
