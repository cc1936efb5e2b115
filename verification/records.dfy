/**
 The shapes shared by the lookup layer and the serialisers: a record is a
 JSON object whose fields are all strings, a dataset is the ordered list of
 records of one ISO standard, and a Python exception raised by the code is a
 `Result` error rather than a crash.
 */
module Records {

  /** One row of a dataset: field name to field value. */
  type Record = map<string, string>

  /** The exceptions the modelled code can raise on its inputs. */
  datatype PyError =
    | KeyError       // `element[field]` on a record without that field
    | TypeError      // `sorted` asked to order two dicts
    | StopIteration  // `next(iter(kwargs))` with no keyword arguments

  datatype Result<+T> = Ok(value: T) | Err(error: PyError)

  datatype Option<+T> = None | Some(value: T)

  /** `record.get(field, "")`: the field's value, or the empty string. */
  function Cell(r: Record, field: string): (c: string)
    ensures field in r ==> c == r[field]
    ensures field !in r ==> c == ""
  {
    if field in r then r[field] else ""
  }

  /** Every record of `data` has the field `field`. */
  predicate AllHave(data: seq<Record>, field: string) {
    forall i :: 0 <= i < |data| ==> field in data[i]
  }
}
