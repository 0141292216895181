/**
  The trivia list transport: the same four handler flows as the fact
  transport, over name-only trivia items and with the trivia wording.
 */
module TrivialistHttp {
  import opened Errors
  import opened Entities
  import opened InMem
  import opened Http
  import Service

  /** POST: the item is built from the name only, so its id is always auto-assigned. */
  function HandleSaveTrivia(s: Store<Trivia>, req: Decoded<SaveTriviaRequest>): (x: Exchange<Trivia>)
    ensures req.Malformed? ==>
              x == Exchange(s, Response(400, ErrorJson(Message(Trivias, InvalidBody(req.cause)))))
    ensures req.Parsed? ==>
              && x.response.status == 200
              && x.response.body.One?
              && x.response.body.record.payload == Trivia(req.value.name, ZeroTime)
              && LeastFreshAbove(s.used, s.counter, x.response.body.record.id)
              && x.store.items == s.items + [x.response.body.record]
              && x.store == Insert(s, Record(0, req.value.ToTrivia())).store
  {
    match req
    case Malformed(cause) => HandleSave(Trivias, s, Malformed(cause))
    case Parsed(r) => HandleSave(Trivias, s, Parsed(r.ToTrivia()))
  }

  /** GET: one entry per stored item, in order; an empty store gives an empty array. */
  function HandleListTrivia(s: Store<Trivia>): (x: Exchange<Trivia>)
    ensures x.store == s
    ensures x.response.status == 200
    ensures x.response.body == Many(s.items)
  {
    HandleList(Trivias, s)
  }

  /** DELETE: a non-numeric id is a 400 with the trivia wording; an absent id a 404; success a 204. */
  function HandleRemoveTrivia(s: Store<Trivia>, id: Option<int>): (x: Exchange<Trivia>)
    ensures id.None? ==> x == Exchange(s, Response(400, ErrorJson(Message(Trivias, NonNumericID))))
    ensures id.Some? && Absent(s.items, id.value) ==>
              x == Exchange(s, Response(404, ErrorJson(Message(Trivias, NotFound))))
    ensures id.Some? && !Absent(s.items, id.value) ==>
              x.response == Response(204, NoBody) && |x.store.items| == |s.items| - 1
    ensures id.Some? ==>
              forall i :: FirstAt(s.items, id.value, i) ==>
                x.store == Store(s.items[..i] + s.items[i + 1..], s.used, s.counter)
  {
    FirstAtOrAbsent(s.items, if id.Some? then id.value else 0);
    HandleRemove(Trivias, s, id)
  }

  /** PUT: the path id is checked before the body and is the id the record carries. */
  function HandleUpdateTrivia(s: Store<Trivia>, id: Option<int>, req: Decoded<UpdateTriviaRequest>): (x: Exchange<Trivia>)
    ensures id.None? ==> x == Exchange(s, Response(400, ErrorJson(Message(Trivias, NonNumericID))))
    ensures id.Some? && req.Malformed? ==>
              x == Exchange(s, Response(400, ErrorJson(Message(Trivias, InvalidBody(req.cause)))))
    ensures id.Some? && req.Parsed? && !Absent(s.items, id.value) ==>
              x.response == Response(200, One(Record(id.value, req.value.ToTrivia())))
    ensures id.Some? && req.Parsed? ==>
              forall i :: FirstAt(s.items, id.value, i) ==>
                x.store == Store(s.items[i := Record(id.value, req.value.ToTrivia())], s.used, s.counter)
    ensures id.Some? && req.Parsed? && Absent(s.items, id.value) && id.value > 0 && id.value !in s.used ==>
              && x.response == Response(201, One(Record(id.value, req.value.ToTrivia())))
              && x.store == Store(s.items + [Record(id.value, req.value.ToTrivia())], s.used + {id.value}, s.counter)
    ensures id.Some? && req.Parsed? && Absent(s.items, id.value) && id.value > 0 && id.value in s.used ==>
              x == Exchange(s, Response(500, ErrorJson(Service.CreateContext(Trivias) + ": "
                                                       + Message(Trivias, AlreadyExists))))
    ensures id.Some? && req.Parsed? && Absent(s.items, id.value) && id.value <= 0 ==>
              && x.response.status == 201
              && x.response.body.One?
              && x.response.body.record.payload == req.value.ToTrivia()
              && LeastFreshAbove(s.used, s.counter, x.response.body.record.id)
              && x.store == Insert(s, Record(id.value, req.value.ToTrivia())).store
  {
    match req
    case Malformed(cause) => HandleUpdate(Trivias, s, id, Malformed(cause))
    case Parsed(r) => HandleUpdate(Trivias, s, id, Parsed(r.ToTrivia()))
  }
}
