/**
  The older trivia transport. Its save and list handlers answer failures
  with a bare status and no error object. Its remove and update handlers go
  through writeError and make exactly the decisions of the trivialist
  transport, so they are TrivialistHttp.HandleRemoveTrivia and
  TrivialistHttp.HandleUpdateTrivia and are not written twice. Only the
  handler decisions are modelled: the server constructor in this file has no
  routes.
 */
module TriviaHttp {
  import opened Errors
  import opened Entities
  import opened InMem
  import opened Http

  /** POST: a bad body is a bare 400; otherwise the item, built from the name only, is saved. */
  function HandleSaveTrivia(s: Store<Trivia>, req: Decoded<SaveTriviaRequest>): (x: Exchange<Trivia>)
    ensures req.Malformed? ==> x == Exchange(s, Response(400, NoBody))
    ensures req.Parsed? ==>
              && x.response.status == 200
              && x.response.body.One?
              && x.response.body.record.payload == Trivia(req.value.name, ZeroTime)
              && LeastFreshAbove(s.used, s.counter, x.response.body.record.id)
              && x.store == Insert(s, Record(0, Trivia(req.value.name, ZeroTime))).store
  {
    match req
    case Malformed(cause) => HandleSaveBare(Trivias, s, Malformed(cause))
    case Parsed(r) => HandleSaveBare(Trivias, s, Parsed(r.ToTrivia()))
  }

  /** GET: the items in order; a service failure would be a bare 500. */
  function HandleListTrivia(s: Store<Trivia>): (x: Exchange<Trivia>)
    ensures x.store == s
    ensures x.response.status == 200
    ensures x.response.body == Many(s.items)
  {
    HandleListBare(Trivias, s)
  }
}
