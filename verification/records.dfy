/** What a backend call returns and the row values the services send: a
    response carries `data` (possibly null) and an `error` (possibly null); an
    update or insert body is a map from column name to value, holding only
    the columns the caller set. */
module Records {
  import opened Wrappers

  /** A backend error: its `code` and `message`. */
  datatype BackendError = BackendError(code: string, message: string)

  /** `{ data, error }` as a backend call resolves. */
  datatype Response<T> = Response(data: Option<T>, error: Option<BackendError>)

  /** A column value in a request body. */
  datatype Value = Text(s: string) | Point(x: int, y: int) | Flag(b: bool) | Null

  type Row = map<string, Value>

  /** `if (error) throw error; return data || fallback` for data whose every
      present value is truthy (arrays and objects). */
  function DataOr<T>(r: Response<T>, fallback: T): (res: Result<T, BackendError>)
    ensures r.error.Some? ==> res == Err(r.error.value)
    ensures r.error.None? && r.data.Some? ==> res == Ok(r.data.value)
    ensures r.error.None? && r.data.None? ==> res == Ok(fallback)
  {
    if r.error.Some? then Err(r.error.value) else Ok(r.data.GetOr(fallback))
  }

  /** `if (error) throw error; return data`. */
  function DataOrThrow<T>(r: Response<T>): (res: Result<Option<T>, BackendError>)
    ensures r.error.Some? <==> res.Err?
    ensures res.Err? ==> res.error == r.error.value
    ensures res.Ok? ==> res.value == r.data
  {
    if r.error.Some? then Err(r.error.value) else Ok(r.data)
  }

  /** `if (error) throw error` for a call whose data is not used. */
  function Throws<T>(r: Response<T>): (o: Outcome)
    ensures o.Failed? <==> r.error.Some?
    ensures o.Failed? ==> o.message == r.error.value.message
  {
    if r.error.Some? then Failed(r.error.value.message) else Succeeded
  }

  /** `if (v !== undefined) body[key] = v`: the key is added only for a defined
      value. */
  function SetIfDefined(body: Row, key: string, v: Option<Value>): (r: Row)
    ensures v.Some? ==> r == body[key := v.value]
    ensures v.None? ==> r == body
  {
    if v.Some? then body[key := v.value] else body
  }
}
