/** Values shared by every part of the model: the error outcomes of the
    table operations, a table as a column list plus typed rows, and the
    schema check that the operations run before any computation. */
module Common {

  datatype Option<T> = None | Some(value: T)

  /** What a table operation raises instead of returning a table. */
  datatype Error =
    | MissingColumn(column: string)   // a required column is absent
    | EmptyInput                      // `iloc[-1]` on a table without rows
    | InvalidMode(mode: string)       // a betting mode outside home/away/over/under
    | UndefinedName(name: string)     // a name that is not bound when the line runs

  datatype Result<T> = Success(value: T) | Failure(error: Error)

  /** A table: the names of its columns and its rows, each row holding the
      fields the computation reads. */
  datatype Table<Row> = Table(columns: seq<string>, rows: seq<Row>)

  /** The first name of `required` that `columns` lacks, checked in order,
      as a sequence of `assert name in df.columns` statements does. */
  function FirstMissing(columns: seq<string>, required: seq<string>): (r: Option<string>)
    ensures r.None? <==> forall c :: c in required ==> c in columns
    ensures r.Some? ==> r.value !in columns
    ensures r.Some? ==> exists i :: 0 <= i < |required| && required[i] == r.value &&
                                    forall j :: 0 <= j < i ==> required[j] in columns
  {
    if required == [] then None
    else if required[0] !in columns then Some(required[0])
    else
      var r := FirstMissing(columns, required[1..]);
      assert r.Some? ==> exists i :: 1 <= i < |required| && required[i] == r.value &&
                                     forall j :: 0 <= j < i ==> required[j] in columns by {
        if r.Some? {
          var i :| 0 <= i < |required[1..]| && required[1..][i] == r.value &&
                   forall j :: 0 <= j < i ==> required[1..][j] in columns;
          assert required[i + 1] == r.value;
        }
      }
      r
  }
}
