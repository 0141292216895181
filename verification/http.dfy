/**
  The decision logic of the HTTP transport, shared by the three handler files.

  A handler receives the outcome of path-id parsing (an `Option<int>`, standing
  for `strconv.ParseInt` on the `:id` path segment) and of JSON decoding (a
  `Decoded` value); it calls the service and chooses a status and a body.
  Status codes are those of section 15 of RFC 9110.
 */
module Http {
  import opened Errors
  import opened InMem
  import Service

  const StatusOK := 200                   // section 15.3.1 of RFC 9110
  const StatusCreated := 201              // section 15.3.2
  const StatusNoContent := 204            // section 15.3.5
  const StatusBadRequest := 400           // section 15.5.1
  const StatusNotFound := 404             // section 15.5.5
  const StatusMethodNotAllowed := 405     // section 15.5.6
  const StatusConflict := 409             // section 15.5.10
  const StatusInternalServerError := 500  // section 15.6.1

  /** The outcome of decoding a JSON request body into a request value. */
  datatype Decoded<T> = Parsed(value: T) | Malformed(cause: string)

  /** What a handler writes: nothing, an `{"error": ...}` object, one record or a JSON array. */
  datatype Body<P> = NoBody | ErrorJson(message: string) | One(record: Record<P>) | Many(records: seq<Record<P>>)

  datatype Response<P> = Response(status: int, body: Body<P>)

  /** A handled request: the repository afterwards and the response written. */
  datatype Exchange<P> = Exchange(store: Store<P>, response: Response<P>)

  // ---------------------------------------------------------------------------
  // writeError

  /** The status writeError picks: sentinels by identity, then InvalidBody by type, then 500. */
  function StatusOf(e: Error): (code: int)
    ensures code in {StatusBadRequest, StatusNotFound, StatusMethodNotAllowed, StatusConflict,
                     StatusInternalServerError}
  {
    match e
    case ResourceNotFound => StatusNotFound
    case NotFound => StatusNotFound
    case AlreadyExists => StatusConflict
    case NonNumericID => StatusBadRequest
    case MethodNotAllowed => StatusMethodNotAllowed
    case InvalidBody(_) => StatusBadRequest
    case Wrapped(_) => StatusInternalServerError
  }

  /**
    Each status writeError can produce, read backwards to the errors that cause
    it; a wrapped error is always a 500, whatever it wraps.
   */
  lemma StatusClassification(e: Error)
    ensures StatusOf(e) == 404 <==> e == NotFound || e == ResourceNotFound
    ensures StatusOf(e) == 409 <==> e == AlreadyExists
    ensures StatusOf(e) == 400 <==> e == NonNumericID || e.InvalidBody?
    ensures StatusOf(e) == 405 <==> e == MethodNotAllowed
    ensures StatusOf(e) == 500 <==> e.Wrapped?
  {
  }

  /** The status and the text of the `{"error": ...}` object writeError writes. */
  datatype ErrorReply = ErrorReply(status: int, message: string) {
    function ToResponse<P>(): Response<P> { Response(status, ErrorJson(message)) }
  }

  /** writeError: the mapped status and an error object carrying the error's text. */
  function WriteError(d: Domain, e: Error): (r: ErrorReply)
    ensures r.status == StatusOf(e)
    ensures e.InvalidBody? ==> r.message == "invalid request body: " + e.cause
    ensures e == NonNumericID ==> r.message == d.Noun() + " id must be numeric"
    ensures e.Wrapped? ==> r.message == e.text
  {
    ErrorReply(StatusOf(e), Message(d, e))
  }

  // ---------------------------------------------------------------------------
  // Handlers that answer every failure through writeError

  /**
    Save handler: decode the body, build a record from the payload fields only
    (so its id is 0 and the repository assigns one), save, answer 200 with it.
   */
  function HandleSave<P>(d: Domain, s: Store<P>, req: Decoded<P>): (x: Exchange<P>)
    ensures req.Malformed? ==>
              x == Exchange(s, Response(StatusBadRequest, ErrorJson("invalid request body: " + req.cause)))
    ensures req.Parsed? ==>
              && x.response.status == StatusOK
              && x.response.body.One?
              && x.response.body.record.payload == req.value
              && LeastFreshAbove(s.used, s.counter, x.response.body.record.id)
              && x.store == Insert(s, Record(0, req.value)).store
  {
    match req
    case Malformed(cause) => Exchange(s, WriteError(d, InvalidBody(cause)).ToResponse())
    case Parsed(p) =>
      var st := Service.Save(d, s, Record(0, p));
      match st.result
      case Err(e) => Exchange(st.store, WriteError(d, e).ToResponse())
      case Ok(saved) => Exchange(st.store, Response(StatusOK, One(saved)))
  }

  /** List handler: 200 and one entry per stored record, in order (an empty array when none). */
  function HandleList<P>(d: Domain, s: Store<P>): (x: Exchange<P>)
    ensures x.store == s
    ensures x.response.status == StatusOK && x.response.body.Many?
    ensures |x.response.body.records| == |s.items|
    ensures forall i :: 0 <= i < |s.items| ==> x.response.body.records[i] == s.items[i]
  {
    match Service.List(d, s)
    case Err(e) => Exchange(s, WriteError(d, e).ToResponse())
    case Ok(list) => Exchange(s, Response(StatusOK, Many(list)))
  }

  /** Remove handler: a non-numeric id is refused before the service is called; success is 204. */
  function HandleRemove<P>(d: Domain, s: Store<P>, id: Option<int>): (x: Exchange<P>)
    ensures id.None? ==>
              x == Exchange(s, Response(StatusBadRequest, ErrorJson(d.Noun() + " id must be numeric")))
    ensures id.Some? && Absent(s.items, id.value) ==>
              x == Exchange(s, Response(StatusNotFound, ErrorJson("trivia not found")))
    ensures id.Some? ==> forall i :: FirstAt(s.items, id.value, i) ==>
              x == Exchange(Store(s.items[..i] + s.items[i + 1..], s.used, s.counter),
                            Response(StatusNoContent, NoBody))
  {
    match id
    case None => Exchange(s, WriteError(d, NonNumericID).ToResponse())
    case Some(n) =>
      var st := Service.Remove(d, s, n);
      match st.result
      case Err(e) => Exchange(st.store, WriteError(d, e).ToResponse())
      case Ok(_) => Exchange(st.store, Response(StatusNoContent, NoBody))
  }

  /**
    Update handler: the path id is parsed before the body is decoded, the
    record carries the path id (never one from the body), and the answer is
    201 when the service created the record and 200 when it replaced one.
   */
  function HandleUpdate<P>(d: Domain, s: Store<P>, id: Option<int>, req: Decoded<P>): (x: Exchange<P>)
    ensures id.None? ==>
              x == Exchange(s, Response(StatusBadRequest, ErrorJson(d.Noun() + " id must be numeric")))
    ensures id.Some? && req.Malformed? ==>
              x == Exchange(s, Response(StatusBadRequest, ErrorJson("invalid request body: " + req.cause)))
    ensures id.Some? && req.Parsed? && !Absent(s.items, id.value) ==>
              x.response == Response(StatusOK, One(Record(id.value, req.value)))
    ensures id.Some? && req.Parsed? ==>
              forall i :: FirstAt(s.items, id.value, i) ==>
                x.store == Store(s.items[i := Record(id.value, req.value)], s.used, s.counter)
    ensures id.Some? && req.Parsed? && Absent(s.items, id.value) && id.value > 0 && id.value !in s.used ==>
              var f := Record(id.value, req.value);
              x == Exchange(Store(s.items + [f], s.used + {id.value}, s.counter), Response(StatusCreated, One(f)))
    ensures id.Some? && req.Parsed? && Absent(s.items, id.value) && id.value > 0 && id.value in s.used ==>
              x == Exchange(s, Response(StatusInternalServerError,
                                        ErrorJson(Service.CreateContext(d) + ": " + Message(d, AlreadyExists))))
    ensures id.Some? && req.Parsed? && Absent(s.items, id.value) && id.value <= 0 ==>
              && x.response.status == StatusCreated
              && x.response.body.One?
              && x.response.body.record.payload == req.value
              && LeastFreshAbove(s.used, s.counter, x.response.body.record.id)
              && x.store.items == s.items + [x.response.body.record]
              && x.store == Insert(s, Record(id.value, req.value)).store
  {
    match id
    case None => Exchange(s, WriteError(d, NonNumericID).ToResponse())
    case Some(n) =>
      match req
      case Malformed(cause) => Exchange(s, WriteError(d, InvalidBody(cause)).ToResponse())
      case Parsed(p) =>
        FirstAtOrAbsent(s.items, n);
        var st := Service.Update(d, s, Record(n, p));
        match st.result
        case Err(e) => Exchange(st.store, WriteError(d, e).ToResponse())
        case Ok((rec, created)) =>
          Exchange(st.store, Response(if created then StatusCreated else StatusOK, One(rec)))
  }

  // ---------------------------------------------------------------------------
  // Handlers that answer failures with a bare status and no body

  /** Save handler without writeError: 400 on a bad body, 500 on a service failure, no error object. */
  function HandleSaveBare<P>(d: Domain, s: Store<P>, req: Decoded<P>): (x: Exchange<P>)
    ensures req.Malformed? ==> x == Exchange(s, Response(StatusBadRequest, NoBody))
    ensures req.Parsed? ==>
              && x.response.status == StatusOK
              && x.response.body.One?
              && x.response.body.record.payload == req.value
              && LeastFreshAbove(s.used, s.counter, x.response.body.record.id)
              && x.store == Insert(s, Record(0, req.value)).store
  {
    match req
    case Malformed(_) => Exchange(s, Response(StatusBadRequest, NoBody))
    case Parsed(p) =>
      var st := Service.Save(d, s, Record(0, p));
      match st.result
      case Err(_) => Exchange(st.store, Response(StatusInternalServerError, NoBody))
      case Ok(saved) => Exchange(st.store, Response(StatusOK, One(saved)))
  }

  /** List handler without writeError: a service failure is a bare 500. */
  function HandleListBare<P>(d: Domain, s: Store<P>): (x: Exchange<P>)
    ensures x.store == s
    ensures x.response.status == StatusOK && x.response.body.Many?
    ensures |x.response.body.records| == |s.items|
    ensures forall i :: 0 <= i < |s.items| ==> x.response.body.records[i] == s.items[i]
  {
    match Service.List(d, s)
    case Err(_) => Exchange(s, Response(StatusInternalServerError, NoBody))
    case Ok(list) => Exchange(s, Response(StatusOK, Many(list)))
  }
}
