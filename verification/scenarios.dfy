/**
  Whole-system statements: sequences of requests against one repository,
  stated through the fact transport.
 */
module Scenarios {
  import opened Errors
  import opened Entities
  import opened InMem
  import opened Http
  import opened FactlistHttp
  import Service

  // ---------------------------------------------------------------------------
  // Id allocation with caller-chosen ids in the way

  /**
    With explicit ids 1, 2 and 3 taken, the next auto-assigned id is 4; with 4
    taken as well it is 5.
   */
  lemma GapFill<P>(p: P)
    ensures var s3 := Insert(Insert(Insert(Empty<P>(), Record(1, p)).store, Record(2, p)).store, Record(3, p)).store;
            && Insert(s3, Record(0, p)).result.value.id == 4
            && Insert(Insert(s3, Record(4, p)).store, Record(0, p)).result.value.id == 5
  {
    var s3 := Insert(Insert(Insert(Empty<P>(), Record(1, p)).store, Record(2, p)).store, Record(3, p)).store;
    assert s3.used == {1, 2, 3} && s3.counter == 0;
    LeastFreshAboveIsUnique(s3.used, 0, Insert(s3, Record(0, p)).result.value.id, 4);
    var s4 := Insert(s3, Record(4, p)).store;
    assert s4.used == {1, 2, 3, 4} && s4.counter == 0;
    LeastFreshAboveIsUnique(s4.used, 0, Insert(s4, Record(0, p)).result.value.id, 5);
  }

  // ---------------------------------------------------------------------------
  // A create / list / delete / list round trip

  /**
    POST a fact, GET the list, DELETE the fact by the id the POST returned,
    GET the list again: 200 with a positive id, a list holding exactly that
    fact, 204 with no body, and an empty list.
   */
  lemma CreateListDeleteList(q: string, a: string)
    ensures var post := HandleSaveFact(Empty(), Parsed(SaveFactRequest(q, a)));
            && post.response.status == 200
            && post.response.body.One?
            && post.response.body.record.id > 0
            && post.response.body.record.payload == Fact(q, a, ZeroTime)
            && HandleListFact(post.store).response.body == Many([post.response.body.record])
            && var del := HandleRemoveFact(post.store, Some(post.response.body.record.id));
               && del.response == Response(204, NoBody)
               && HandleListFact(del.store).response == Response(200, Many([]))
  {
    var post := HandleSaveFact(Empty(), Parsed(SaveFactRequest(q, a)));
    var f := post.response.body.record;
    assert post.store.items == [f];
    assert FirstAt(post.store.items, f.id, 0);
  }

  // ---------------------------------------------------------------------------
  // The update handler on the store the transport tests start from

  /**
    After one fact has been saved into a fresh repository (it gets id 1):
    PUT /fact/1 replaces it and answers 200; PUT /fact/1337 creates fact 1337
    and answers 201; a non-numeric id answers 400 whatever the body; and a
    malformed body on a valid id answers 400 with the decoder's message.
   */
  lemma UpdateHandlerCases(q: string, a: string, u: UpdateFactRequest, cause: string)
    ensures var s := Service.Save(Facts, Empty(), Record(0, Fact(q, a, ZeroTime))).store;
            && s.items == [Record(1, Fact(q, a, ZeroTime))]
            && HandleUpdateFact(s, Some(1), Parsed(u)).response == Response(200, One(Record(1, u.ToFact())))
            && HandleUpdateFact(s, Some(1), Parsed(u)).store.items == [Record(1, u.ToFact())]
            && HandleUpdateFact(s, Some(1337), Parsed(u)).response == Response(201, One(Record(1337, u.ToFact())))
            && HandleUpdateFact(s, None, Malformed(cause)).response.status == 400
            && HandleUpdateFact(s, None, Malformed(cause)).response.body
                 == ErrorJson(Message(Facts, NonNumericID))
            && HandleUpdateFact(s, Some(1), Malformed(cause)).response
                 == Response(400, ErrorJson("invalid request body: " + cause))
  {
    var s := Service.Save(Facts, Empty(), Record(0, Fact(q, a, ZeroTime))).store;
    LeastFreshAboveIsUnique({}, 0, s.items[0].id, 1);
    assert FirstAt(s.items, 1, 0);
    EmptyValid<Fact>();
    InsertPreservesValid(Empty(), Record(0, Fact(q, a, ZeroTime)));
    NotUsedIsAbsent(s, 1337);
  }

  /**
    A PUT whose path id is not positive and not live is not stored under that
    id: the fallback insert auto-assigns a fresh positive id, and the 201
    answer carries that id instead.
   */
  lemma UpdateNonPositiveIdAutoAssigns(s: Store<Fact>, n: int, u: UpdateFactRequest)
    requires Valid(s)
    requires n <= 0
    ensures var x := HandleUpdateFact(s, Some(n), Parsed(u));
            && x.response.status == 201
            && x.response.body.One?
            && x.response.body.record.id != n
            && x.response.body.record.id > 0
  {
    NotUsedIsAbsent(s, n);
  }

  // ---------------------------------------------------------------------------
  // Any sequence of requests keeps the repository invariant

  /** A request to the fact transport, with its path id and body already parsed. */
  datatype Request =
    | Post(save: Decoded<SaveFactRequest>)
    | Get
    | Delete(id: Option<int>)
    | Put(id: Option<int>, update: Decoded<UpdateFactRequest>)

  function Serve(s: Store<Fact>, r: Request): Exchange<Fact> {
    match r
    case Post(body) => HandleSaveFact(s, body)
    case Get => HandleListFact(s)
    case Delete(id) => HandleRemoveFact(s, id)
    case Put(id, body) => HandleUpdateFact(s, id, body)
  }

  function ServeAll(s: Store<Fact>, rs: seq<Request>): Store<Fact>
    decreases |rs|
  {
    if |rs| == 0 then s else ServeAll(Serve(s, rs[0]).store, rs[1..])
  }

  /** Each request changes the repository by at most one repository operation. */
  lemma ServeIsRepositoryRun(s: Store<Fact>, r: Request)
    ensures exists ops: seq<Op<Fact>> :: |ops| <= 1 && Serve(s, r).store == Run(s, ops)
  {
    match r
    case Post(body) =>
      if body.Parsed? {
        assert Serve(s, r).store == Run(s, [InsertOp(Record(0, body.value.ToFact()))]);
      } else {
        assert Serve(s, r).store == Run(s, []);
      }
    case Get =>
      assert Serve(s, r).store == Run(s, []);
    case Delete(id) =>
      if id.Some? {
        assert Serve(s, r).store == Run(s, [DeleteOp(id.value)]);
      } else {
        assert Serve(s, r).store == Run(s, []);
      }
    case Put(id, body) =>
      if id.Some? && body.Parsed? {
        var rec := Record(id.value, body.value.ToFact());
        FirstAtOrAbsent(s.items, id.value);
        if Absent(s.items, id.value) {
          assert Serve(s, r).store == Run(s, [InsertOp(rec)]);
        } else {
          assert Serve(s, r).store == Run(s, [UpdateOp(rec)]);
        }
      } else {
        assert Serve(s, r).store == Run(s, []);
      }
  }

  /** Starting from a valid store, no sequence of requests breaks the invariant. */
  lemma {:induction false} ServeAllPreservesValid(s: Store<Fact>, rs: seq<Request>)
    requires Valid(s)
    ensures Valid(ServeAll(s, rs))
    decreases |rs|
  {
    if |rs| > 0 {
      ServeIsRepositoryRun(s, rs[0]);
      var ops: seq<Op<Fact>> :| |ops| <= 1 && Serve(s, rs[0]).store == Run(s, ops);
      RunPreservesValid(s, ops);
      ServeAllPreservesValid(Serve(s, rs[0]).store, rs[1..]);
    }
  }

  /**
    A deleted fact's id is retired for good: a later PUT to it answers 500
    with the wrapped collision text, not 201, and changes nothing.
   */
  lemma PutAfterDelete(s: Store<Fact>, n: int, u: UpdateFactRequest)
    requires Valid(s)
    requires !Absent(s.items, n)
    ensures var t := HandleRemoveFact(s, Some(n)).store;
            && HandleUpdateFact(t, Some(n), Parsed(u))
                 == Exchange(t, Response(500, ErrorJson(Service.CreateContext(Facts) + ": " + Message(Facts, AlreadyExists))))
  {
    FirstAtOrAbsent(s.items, n);
    var i :| FirstAt(s.items, n, i);
    Service.RemoveThenAbsent(Facts, s, n);
    var t := HandleRemoveFact(s, Some(n)).store;
    assert t == Service.Remove(Facts, s, n).store;
    assert n in t.used && n > 0;
  }
}
