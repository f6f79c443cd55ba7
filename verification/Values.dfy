/** Field values, rows and descriptors shared by every part of the model. */
module Values {

  type Byte = b: int | 0 <= b < 256

  /** A Go string is a sequence of bytes. */
  type Bytes = seq<Byte>

  datatype Option<+T> = None | Some(value: T)

  datatype DBType = IntType | StringType

  type Int64 = i: int | -0x8000_0000_0000_0000 <= i < 0x8000_0000_0000_0000

  datatype Value = IntField(i: Int64) | StringField(s: Bytes)

  function TypeOf(v: Value): DBType {
    if v.IntField? then IntType else StringType
  }

  type Row = seq<Value>

  /** The field types of a `TupleDesc`; names matter only to the catalog and the planner. */
  type Desc = seq<DBType>

  /** No element occurs twice. */
  ghost predicate Distinct<T>(s: seq<T>) {
    forall i, j | 0 <= i < j < |s| :: s[i] != s[j]
  }
}
