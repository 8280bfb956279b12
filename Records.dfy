/**
 * The record abstraction both views consume: a note exposing named field values.
 * Only two kinds of value matter to the grouping code, strings and dates; every
 * other frontmatter value (numbers, booleans, lists, null) is `Other`, and a field
 * the record does not have reads as `Missing` (JavaScript's `undefined`).
 */
module Records {

  /** A calendar day as a day number: 0 is 1970-01-01, negative days are before it. */
  type Day = int

  datatype Option<T> = None | Some(value: T)

  datatype Value =
    | Str(s: string)
    | Date(day: Day)
    | Other
    | Missing

  datatype DataRecord = DataRecord(id: string, values: map<string, Value>)

  /** `record.values[field]`: the value stored under `field`, or `Missing`. */
  function Lookup(r: DataRecord, field: string): (v: Value)
    ensures field in r.values ==> v == r.values[field]
    ensures field !in r.values ==> v == Missing
    ensures v != Missing ==> field in r.values
  {
    if field in r.values then r.values[field] else Missing
  }
}
