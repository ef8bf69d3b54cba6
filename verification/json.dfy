/** The part of a JSON document the calibration file uses: integers and
    objects keyed by strings. */
module Json {
  import opened Wrappers

  datatype Value = Int(n: int) | Object(fields: map<string, Value>)

  /** `doc[key]` when `doc` is an object holding `key` (a missing key or a
      non-object raises in the source). */
  function Member(doc: Value, key: string): (r: Option<Value>)
    ensures r.Some? <==> doc.Object? && key in doc.fields
    ensures r.Some? ==> r.value == doc.fields[key]
  {
    if doc.Object? && key in doc.fields then Some(doc.fields[key]) else None
  }

  /** `doc[key]` read as an integer. */
  function IntMember(doc: Value, key: string): (r: Option<int>)
    ensures r.Some? <==> doc.Object? && key in doc.fields && doc.fields[key].Int?
    ensures r.Some? ==> doc.fields[key] == Int(r.value)
  {
    match Member(doc, key)
    case Some(Int(n)) => Some(n)
    case _ => None
  }
}
