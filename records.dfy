/** The forum's dictionary-shaped rows.

    Every row the request layer handles (a question, an answer, a comment,
    a tag, the fields of a submitted form) is a dictionary from column name
    to value.  A dictionary that is only read or freshly built is a `Fields`
    value; one that a helper updates in place is a `Record` object whose
    `fields` the helper reassigns. */
module Records {

  /** A wall-clock reading, split into whole seconds and the microsecond
      part that the helpers strip before storing a timestamp. */
  datatype DateTime = DateTime(seconds: int, microsecond: nat)

  /** `now.replace(microsecond=0)`: the same second, microseconds zeroed. */
  function DropMicroseconds(t: DateTime): (r: DateTime)
    ensures r.seconds == t.seconds && r.microsecond == 0
  {
    t.(microsecond := 0)
  }

  /** The values a column can hold: SQL NULL, integers (ids and counters),
      text, timestamps, and the list of answer rows attached to a question. */
  datatype Value =
    | Null
    | Int(n: int)
    | Text(s: string)
    | Timestamp(at: DateTime)
    | Rows(rows: seq<map<string, Value>>)

  type Fields = map<string, Value>

  /** A dictionary whose entries are changed in place. */
  class Record {
    var fields: Fields
  }
}
