/** Outcomes of the steps of the augmented `runai list` pipeline. Each constructor of `Error`
    but two stands for an exception the program raises; `DuplicateColumn` and `RaggedRow` are
    this model's own refusals of listings that pandas would accept (repeated names) or pad
    (short rows, when the widest row is as wide as the header). */
module Results {

  datatype Error =
    | NoHeader          // fewer than three lines of output: no header line (IndexError, dgx/rlist.py:40)
    | DuplicateColumn   // a header naming one column twice: refused by the model, accepted by pandas
    | RaggedRow         // a data row whose cell count differs from the header's: refused by the model
    | MissingColumns(names: seq<string>)  // dropping labels that are not columns: KeyError (dgx/rlist.py:78)
    | MissingColumn(name: string)         // reading an absent `STATUS` or `NAME` column (dgx/rlist.py:81-82)
    | EmptyPool         // a pool of zero workers: ValueError (dgx/rlist.py:62)
    | BadDocument       // not JSON (dgx/rlist.py:51), or JSON but not an object (no `keys`, dgx/rlist.py:83)
    | NotABoolean       // an argument that is no boolean word (dgx/rlist.py:164)

  datatype Result<+T> = Ok(value: T) | Err(error: Error) {

    predicate IsFailure() {
      Err?
    }

    function PropagateFailure<U>(): Result<U>
      requires Err?
    {
      Err(error)
    }

    function Extract(): T
      requires Ok?
    {
      value
    }
  }

  datatype Option<+T> = None | Some(value: T)
}
