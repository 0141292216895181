/**
  The application service: Save, List, Update (update-or-create) and Remove,
  each a composition of repository transitions. The fact and the trivia
  services run the same code and differ only in their messages, so both are
  one definition parameterised by the Domain.

  The update-or-create path is two separate repository steps; nothing here
  makes them atomic.
 */
module Service {
  import opened Errors
  import opened InMem

  // ---------------------------------------------------------------------------
  // Messages that prefix wrapped errors

  function SaveContext(d: Domain): string { "could not save " + d.Noun() }
  function ListContext(d: Domain): string { "could not list all " + d.Plural() }
  function CreateContext(d: Domain): string { "could not create " + d.Noun() }
  function RemoveContext(d: Domain): string { "could not remove " + d.Noun() }

  /** The trivia service says "task" here where the fact service says "fact". */
  function UpdateContext(d: Domain): string {
    match d
    case Facts => "could not update fact"
    case Trivias => "could not update task"
  }

  /** The text of the error an update-or-create reports when its fallback insert collides. */
  lemma CreateCollisionText(d: Domain)
    ensures CreateContext(d) + ": " + Message(d, AlreadyExists)
              == "could not create " + d.Noun() + ": trivia already exists"
  {
    assert Message(d, AlreadyExists) == "trivia already exists";
  }

  // ---------------------------------------------------------------------------
  // Operations

  /** Save: insert the record and hand it back with its id; wrap every failure. */
  function Save<P>(d: Domain, s: Store<P>, r: Record<P>): (st: Step<P, Record<P>>)
    ensures st.result.Err? <==> r.id > 0 && r.id in s.used
    ensures st.result.Err? ==>
              st == Step(s, Err(Wrapped(SaveContext(d) + ": " + Message(d, AlreadyExists))))
    ensures st.result.Ok? ==>
              && st.result.value.payload == r.payload
              && (r.id > 0 ==> st.result.value.id == r.id)
              && (r.id <= 0 ==> LeastFreshAbove(s.used, s.counter, st.result.value.id))
              && st.store.items == s.items + [st.result.value]
              && st.store.used == s.used + {st.result.value.id}
              && st.store.counter == (if r.id > 0 then s.counter else st.result.value.id)
  {
    var ins := Insert(s, r);
    match ins.result
    case Ok(saved) => ins
    case Err(e) => Step(ins.store, Err(Wrap(d, SaveContext(d), e)))
  }

  /** List: the repository's records, in order; a repository failure would be wrapped. */
  function List<P>(d: Domain, s: Store<P>): (r: Result<seq<Record<P>>>)
    ensures r.Ok? && |r.value| == |s.items|
    ensures forall i :: 0 <= i < |s.items| ==> r.value[i] == s.items[i]
  {
    match FindAll(s)
    case Ok(list) => Ok(list)
    case Err(e) => Err(Wrap(d, ListContext(d), e))
  }

  /**
    Update: repository Update, and on NotFound fall back to Insert of the same
    record. The flag in the result says whether the record was created.
   */
  function Update<P>(d: Domain, s: Store<P>, r: Record<P>): (st: Step<P, (Record<P>, bool)>)
    ensures forall i :: FirstAt(s.items, r.id, i) ==>
              st == Step(Store(s.items[i := r], s.used, s.counter), Ok((r, false)))
    ensures Absent(s.items, r.id) && r.id > 0 && r.id !in s.used ==>
              st == Step(Store(s.items + [r], s.used + {r.id}, s.counter), Ok((r, true)))
    ensures Absent(s.items, r.id) && r.id > 0 && r.id in s.used ==>
              st == Step(s, Err(Wrapped(CreateContext(d) + ": " + Message(d, AlreadyExists))))
    ensures Absent(s.items, r.id) && r.id <= 0 ==>
              && st.result.Ok? && st.result.value.1
              && LeastFreshAbove(s.used, s.counter, st.result.value.0.id)
              && st.result.value.0.payload == r.payload
              && st.store == Insert(s, r).store
  {
    var up := InMem.Update(s, r);
    if up.result.Err? && up.result.error == NotFound then
      var ins := Insert(up.store, r);
      match ins.result
      case Ok(created) => Step(ins.store, Ok((created, true)))
      case Err(e) => Step(ins.store, Err(Wrap(d, CreateContext(d), e)))
    else
      match up.result
      case Err(e) => Step(up.store, Err(Wrap(d, UpdateContext(d), e)))
      case Ok(_) => Step(up.store, Ok((r, false)))
  }

  /** Remove: delete by id; NotFound passes through unwrapped, anything else is wrapped. */
  function Remove<P>(d: Domain, s: Store<P>, id: int): (st: Step<P, ()>)
    ensures Absent(s.items, id) ==> st == Step(s, Err(NotFound))
    ensures forall i :: FirstAt(s.items, id, i) ==>
              st == Step(Store(s.items[..i] + s.items[i + 1..], s.used, s.counter), Ok(()))
  {
    var del := DeleteByID(s, id);
    match del.result
    case Ok(_) => del
    case Err(e) =>
      if e == NotFound then del
      else Step(del.store, Err(Wrap(d, RemoveContext(d), e)))
  }

  // ---------------------------------------------------------------------------
  // Properties of the service

  /** Save never returns a raw repository sentinel: its only failure is wrapped. */
  lemma SaveErrorsAreWrapped<P>(d: Domain, s: Store<P>, r: Record<P>)
    ensures Save(d, s, r).result.Err? ==> Save(d, s, r).result.error.Wrapped?
    ensures Save(d, s, r).result.Err? ==> Save(d, s, r).store == s
  {
  }

  /** In a valid store a saved record always gets a positive id. */
  lemma SavedIdIsPositive<P>(d: Domain, s: Store<P>, r: Record<P>)
    requires Valid(s)
    ensures Save(d, s, r).result.Ok? ==> Save(d, s, r).result.value.id > 0
  {
  }

  /**
    Update of a live id replaces that record wholesale at the same index,
    including every payload field, and creates nothing.
   */
  lemma UpdateExistingReplaces<P>(d: Domain, s: Store<P>, r: Record<P>)
    requires Valid(s)
    requires !Absent(s.items, r.id)
    ensures var st := Update(d, s, r);
            && st.result == Ok((r, false))
            && |st.store.items| == |s.items|
            && (forall j :: 0 <= j < |s.items| && s.items[j].id == r.id ==> st.store.items[j] == r)
            && (forall j :: 0 <= j < |s.items| && s.items[j].id != r.id ==> st.store.items[j] == s.items[j])
            && st.store.used == s.used && st.store.counter == s.counter
  {
    FirstAtOrAbsent(s.items, r.id);
    var i :| FirstAt(s.items, r.id, i);
    forall j | 0 <= j < |s.items| && s.items[j].id == r.id
      ensures j == i
    {
      FirstAtIsOnly(s, r.id, i, j);
    }
  }

  /**
    Update of an id that is not live ends in one of three ways: the record is
    created under its positive id, it is created under a fresh id, or the id is
    retired and the call fails with a wrapped error and no change.
   */
  lemma UpdateMissingCreatesOrFails<P>(d: Domain, s: Store<P>, r: Record<P>)
    requires Valid(s)
    requires Absent(s.items, r.id)
    ensures var st := Update(d, s, r);
            && (st.result.Ok? ==> st.result.value.1 && st.result.value.0.payload == r.payload)
            && (st.result.Ok? && r.id > 0 ==> st.result.value.0.id == r.id)
            && (st.result.Err? <==> r.id in s.used)
            && (st.result.Err? ==> st.result.error.Wrapped? && st.store == s)
  {
    if r.id <= 0 {
      assert r.id !in s.used;
    }
  }

  /** Remove reports NotFound itself and nothing else unwrapped. */
  lemma RemoveErrors<P>(d: Domain, s: Store<P>, id: int)
    ensures Remove(d, s, id).result.Err? <==> Absent(s.items, id)
    ensures Remove(d, s, id).result.Err? ==> Remove(d, s, id).result.error == NotFound
  {
    FirstAtOrAbsent(s.items, id);
  }

  /** After a successful Remove the id is gone from a valid store, so a second Remove fails. */
  lemma RemoveThenAbsent<P>(d: Domain, s: Store<P>, id: int)
    requires Valid(s)
    requires Remove(d, s, id).result.Ok?
    ensures var t := Remove(d, s, id).store;
            && Absent(t.items, id)
            && |t.items| == |s.items| - 1
            && Remove(d, t, id) == Step(t, Err(NotFound))
            && FindByID(t, id) == Err(NotFound)
  {
    FirstAtOrAbsent(s.items, id);
    var i :| FirstAt(s.items, id, i);
    var t := Remove(d, s, id).store;
    assert t.items == s.items[..i] + s.items[i + 1..];
    forall j | 0 <= j < |t.items|
      ensures t.items[j].id != id
    {
      var k := if j < i then j else j + 1;
      assert t.items[j] == s.items[k];
      assert k != i;
    }
  }

  /** Saving a record and then removing the id it got gives back the list as it was. */
  lemma SaveThenRemoveRestores<P>(d: Domain, s: Store<P>, r: Record<P>)
    requires Valid(s)
    requires Save(d, s, r).result.Ok?
    ensures var st := Save(d, s, r);
            && Remove(d, st.store, st.result.value.id).result == Ok(())
            && List(d, Remove(d, st.store, st.result.value.id).store) == Ok(s.items)
  {
    var st := Save(d, s, r);
    var n := st.result.value;
    assert n.id !in s.used;
    assert Absent(s.items, n.id);
    var k := |s.items|;
    assert FirstAt(st.store.items, n.id, k);
    assert st.store.items[..k] + st.store.items[k + 1..] == s.items;
  }

  // ---------------------------------------------------------------------------
  // Saving many records in order

  /** Save each payload in turn as a new record with no id, as the service tests do. */
  function SaveAll<P>(d: Domain, s: Store<P>, payloads: seq<P>): Store<P>
    decreases |payloads|
  {
    if |payloads| == 0 then s
    else SaveAll(d, Save(d, s, Record(0, payloads[0])).store, payloads[1..])
  }

  /**
    Listing after saving n payloads shows the old records followed by the new
    ones, in save order, each with a positive id.
   */
  lemma {:induction false} SaveAllThenList<P>(d: Domain, s: Store<P>, payloads: seq<P>)
    requires Valid(s)
    ensures Valid(SaveAll(d, s, payloads))
    ensures var t := SaveAll(d, s, payloads);
            && |t.items| == |s.items| + |payloads|
            && t.items[..|s.items|] == s.items
            && (forall k :: 0 <= k < |payloads| ==>
                  t.items[|s.items| + k].payload == payloads[k] && t.items[|s.items| + k].id > 0)
            && List(d, t) == Ok(t.items)
    decreases |payloads|
  {
    if |payloads| > 0 {
      var s1 := Save(d, s, Record(0, payloads[0])).store;
      InsertPreservesValid(s, Record(0, payloads[0]));
      SaveAllThenList(d, s1, payloads[1..]);
      var t := SaveAll(d, s, payloads);
      assert t == SaveAll(d, s1, payloads[1..]);
      assert |s1.items| == |s.items| + 1;
      assert t.items[..|s1.items|] == s1.items;
      assert s1.items[..|s.items|] == s.items;
      assert t.items[..|s.items|] == s.items by {
        assert t.items[..|s.items|] == t.items[..|s1.items|][..|s.items|];
      }
      forall k | 0 <= k < |payloads|
        ensures t.items[|s.items| + k].payload == payloads[k] && t.items[|s.items| + k].id > 0
      {
        if k == 0 {
          assert t.items[|s.items|] == s1.items[|s.items|];
        } else {
          assert t.items[|s.items| + k] == t.items[|s1.items| + (k - 1)];
          assert payloads[1..][k - 1] == payloads[k];
        }
      }
    }
  }
}
