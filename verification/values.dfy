/** JSON-like documents, the shape of every record the firmware registry
    stores: module types, modules and their port descriptors. */
module Values {

  /** A JSON value. Numbers are modelled as integers; the synthesizer only
      copies values around, so their arithmetic never matters. */
  datatype Value =
    | Null
    | Bool(b: bool)
    | Number(n: int)
    | Str(s: string)
    | Array(items: seq<Value>)
    | Object(fields: map<string, Value>)

  /** A dictionary: a port descriptor, a type's argument description, or a
      whole stored document. */
  type Dict = map<string, Value>

  /** Named port descriptors, the `inputs` or `outputs` of a module. */
  type Ports = map<string, Dict>

  /** Python's `d.get(key, default)` on a dictionary. */
  function Get<K, V>(d: map<K, V>, key: K, default: V): (v: V) {
    if key in d then d[key] else default
  }
}
