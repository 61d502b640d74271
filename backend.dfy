/** Shapes of the answers the hosted backend's client SDK gives back.
    The backend itself (object storage, the `pdf_order` table, the network)
    is not modelled: every call's answer reaches the model as a value. */
module Backend {

  datatype Option<+T> = None | Some(value: T) {
    function GetOr(default: T): T {
      match this
      case Some(v) => v
      case None => default
    }
  }

  /** The answer of a call the admin page awaits and throws on:
      `Err(detail)` carries the text the page appends to its error prefix. */
  datatype Result<+T> = Ok(value: T) | Err(detail: string)

  /** The answer of a call that returns no data (upload, remove, update). */
  datatype Outcome = Done | Failed(detail: string)

  /** The `{ data, error }` pair that the public browser inspects field by field. */
  datatype Response<+T> = Response(data: Option<T>, error: Option<string>)
}

/** The three fixed categories. Each names a folder of the `pdf` storage
    bucket and the key of one row of the `pdf_order` table. */
module Categories {
  const AlternativeConstitution: string := "Alternative Constitution"
  const Explanation: string := "Explanation"
  const ListenUp: string := "Listen Up"

  const All: seq<string> := [AlternativeConstitution, Explanation, ListenUp]
}
