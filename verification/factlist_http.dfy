/**
  The fact transport: the four handlers of the fact list server. Request
  bodies are taken as already decoded; the handlers fix which fields reach the
  service and which id the record carries.
 */
module FactlistHttp {
  import opened Errors
  import opened Entities
  import opened InMem
  import opened Http
  import Service

  /** POST: the fact is built from question and answer, so its id is always auto-assigned. */
  function HandleSaveFact(s: Store<Fact>, req: Decoded<SaveFactRequest>): (x: Exchange<Fact>)
    ensures req.Malformed? ==>
              x == Exchange(s, Response(400, ErrorJson(Message(Facts, InvalidBody(req.cause)))))
    ensures req.Parsed? ==>
              && x.response.status == 200
              && x.response.body.One?
              && x.response.body.record.payload == Fact(req.value.question, req.value.answer, ZeroTime)
              && LeastFreshAbove(s.used, s.counter, x.response.body.record.id)
              && x.store.items == s.items + [x.response.body.record]
              && x.store == Insert(s, Record(0, req.value.ToFact())).store
  {
    match req
    case Malformed(cause) => HandleSave(Facts, s, Malformed(cause))
    case Parsed(r) => HandleSave(Facts, s, Parsed(r.ToFact()))
  }

  /** GET: one entry per stored fact, in order; an empty store gives an empty array. */
  function HandleListFact(s: Store<Fact>): (x: Exchange<Fact>)
    ensures x.store == s
    ensures x.response.status == 200
    ensures x.response.body == Many(s.items)
  {
    HandleList(Facts, s)
  }

  /** DELETE: a non-numeric id is a 400 with the fact wording; an absent id a 404; success a 204. */
  function HandleRemoveFact(s: Store<Fact>, id: Option<int>): (x: Exchange<Fact>)
    ensures id.None? ==> x == Exchange(s, Response(400, ErrorJson(Message(Facts, NonNumericID))))
    ensures id.Some? && Absent(s.items, id.value) ==>
              x == Exchange(s, Response(404, ErrorJson(Message(Facts, NotFound))))
    ensures id.Some? && !Absent(s.items, id.value) ==>
              x.response == Response(204, NoBody) && |x.store.items| == |s.items| - 1
    ensures id.Some? ==>
              forall i :: FirstAt(s.items, id.value, i) ==>
                x.store == Store(s.items[..i] + s.items[i + 1..], s.used, s.counter)
  {
    FirstAtOrAbsent(s.items, if id.Some? then id.value else 0);
    HandleRemove(Facts, s, id)
  }

  /**
    PUT: the path id is checked before the body and is the id the record
    carries; replacing a live fact answers 200, creating one under a positive
    id never handed out answers 201, and an id deleted earlier answers 500.
   */
  function HandleUpdateFact(s: Store<Fact>, id: Option<int>, req: Decoded<UpdateFactRequest>): (x: Exchange<Fact>)
    ensures id.None? ==> x == Exchange(s, Response(400, ErrorJson(Message(Facts, NonNumericID))))
    ensures id.Some? && req.Malformed? ==>
              x == Exchange(s, Response(400, ErrorJson(Message(Facts, InvalidBody(req.cause)))))
    ensures id.Some? && req.Parsed? && !Absent(s.items, id.value) ==>
              x.response == Response(200, One(Record(id.value, req.value.ToFact())))
    ensures id.Some? && req.Parsed? ==>
              forall i :: FirstAt(s.items, id.value, i) ==>
                x.store == Store(s.items[i := Record(id.value, req.value.ToFact())], s.used, s.counter)
    ensures id.Some? && req.Parsed? && Absent(s.items, id.value) && id.value > 0 && id.value !in s.used ==>
              && x.response == Response(201, One(Record(id.value, req.value.ToFact())))
              && x.store == Store(s.items + [Record(id.value, req.value.ToFact())], s.used + {id.value}, s.counter)
    ensures id.Some? && req.Parsed? && Absent(s.items, id.value) && id.value > 0 && id.value in s.used ==>
              x == Exchange(s, Response(500, ErrorJson(Service.CreateContext(Facts) + ": "
                                                       + Message(Facts, AlreadyExists))))
    ensures id.Some? && req.Parsed? && Absent(s.items, id.value) && id.value <= 0 ==>
              && x.response.status == 201
              && x.response.body.One?
              && x.response.body.record.payload == req.value.ToFact()
              && LeastFreshAbove(s.used, s.counter, x.response.body.record.id)
              && x.store == Insert(s, Record(id.value, req.value.ToFact())).store
  {
    match req
    case Malformed(cause) => HandleUpdate(Facts, s, id, Malformed(cause))
    case Parsed(r) => HandleUpdate(Facts, s, id, Parsed(r.ToFact()))
  }
}
