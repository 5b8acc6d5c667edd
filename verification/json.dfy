/**
 Decoded JSON values, as `json.loads` returns them, and the two foreign parsers the
 pipeline relies on. Neither parser is modelled: both are passed in as a `Codec`.
 */
module Json {

  import opened Base

  /** A decoded JSON value. Objects are maps: which of several duplicate keys wins
      is decided by the decoder. Numbers are reals (no NaN or infinities). */
  datatype Json =
    | JNull
    | JBool(b: bool)
    | JNum(n: real)
    | JStr(s: string)
    | JArr(items: seq<Json>)
    | JObj(fields: map<string, Json>)

  /** The foreign decoders: `json.loads` (`None` when it raises JSONDecodeError) and
      `float()` applied to a string (`None` when it raises ValueError). */
  datatype Codec = Codec(loads: string -> Option<Json>, parseFloat: string -> Option<real>)

  /** The string stored under `key`, if the value is an object holding a string there. */
  function StrField(j: Json, key: string): (r: Option<string>)
    ensures r.Some? <==> j.JObj? && key in j.fields && j.fields[key].JStr?
    ensures r.Some? ==> r.value == j.fields[key].s
  {
    if j.JObj? && key in j.fields && j.fields[key].JStr? then Some(j.fields[key].s) else None
  }
}
