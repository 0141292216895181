/**
  The in-memory repository: an ordered list of records, the set of ids ever
  handed out ("used") and the counter that auto-assignment starts from.

  Every operation is one atomic transition from a store to a store and a
  result; the read/write lock that makes this so in Go is not modelled.
 */
module InMem {
  import opened Errors

  /** A stored record: its id and the payload fields the repository never inspects. */
  datatype Record<P> = Record(id: int, payload: P)

  /** The repository state. `used` is never shrunk, so deleted ids stay retired. */
  datatype Store<P> = Store(items: seq<Record<P>>, used: set<int>, counter: int)

  /** The state of a freshly constructed repository. */
  function Empty<P>(): Store<P> {
    Store([], {}, 0)
  }

  /** A repository transition: the store afterwards and what the call returned. */
  datatype Step<P, T> = Step(store: Store<P>, result: Result<T>)

  // ---------------------------------------------------------------------------
  // Invariant

  /** No two live records share an id. */
  ghost predicate Unique<P>(items: seq<Record<P>>) {
    forall i, j :: 0 <= i < j < |items| ==> items[i].id != items[j].id
  }

  /** The invariant every reachable store keeps. */
  ghost predicate Valid<P>(s: Store<P>) {
    && Unique(s.items)
    && (forall i :: 0 <= i < |s.items| ==> s.items[i].id in s.used)
    && (forall x :: x in s.used ==> x > 0)
    && s.counter >= 0
  }

  /** No live record has id `id`. */
  ghost predicate Absent<P>(items: seq<Record<P>>, id: int) {
    forall j :: 0 <= j < |items| ==> items[j].id != id
  }

  /** `i` is the index of the first live record with id `id`. */
  ghost predicate FirstAt<P>(items: seq<Record<P>>, id: int, i: int) {
    && 0 <= i < |items|
    && items[i].id == id
    && forall j :: 0 <= j < i ==> items[j].id != id
  }

  /** `id` is the least value above `counter` that is not in `used`. */
  ghost predicate LeastFreshAbove(used: set<int>, counter: int, id: int) {
    && id > counter
    && id !in used
    && forall k :: counter < k < id ==> k in used
  }

  // ---------------------------------------------------------------------------
  // Id allocation

  /** The used ids at or above `n`; it shrinks each time the skip loop advances. */
  function UsedFrom(used: set<int>, n: int): set<int> {
    set x | x in used && x >= n
  }

  /** The least value at or above `n` that is not in `used`. */
  function Skip(used: set<int>, n: int): (r: int)
    ensures r >= n && r !in used
    ensures forall k :: n <= k < r ==> k in used
    decreases UsedFrom(used, n)
  {
    if n in used then
      assert n !in UsedFrom(used, n + 1);
      Skip(used, n + 1)
    else
      n
  }

  /** The id auto-assignment picks: bump the counter, then skip used values. */
  function NextId(used: set<int>, counter: int): (id: int)
    ensures LeastFreshAbove(used, counter, id)
  {
    Skip(used, counter + 1)
  }

  /** The allocation loop as written, with a mutable counter. */
  method AllocateId(used: set<int>, counter: int) returns (id: int)
    ensures LeastFreshAbove(used, counter, id)
    ensures id == NextId(used, counter)
  {
    id := counter + 1;
    while id in used
      invariant id > counter
      invariant forall k :: counter < k < id ==> k in used
      decreases UsedFrom(used, id)
    {
      assert id !in UsedFrom(used, id + 1);
      id := id + 1;
    }
    LeastFreshAboveIsUnique(used, counter, id, NextId(used, counter));
  }

  /** There is at most one least fresh value above a counter. */
  lemma LeastFreshAboveIsUnique(used: set<int>, counter: int, a: int, b: int)
    requires LeastFreshAbove(used, counter, a)
    requires LeastFreshAbove(used, counter, b)
    ensures a == b
  {
  }

  // ---------------------------------------------------------------------------
  // Lookup

  /** The index of the first record with id `id`, scanning from the front. */
  function IndexOf<P>(items: seq<Record<P>>, id: int): (r: Option<nat>)
    ensures r.Some? ==> FirstAt(items, id, r.value)
    ensures r.None? ==> Absent(items, id)
  {
    if |items| == 0 then None
    else if items[0].id == id then Some(0)
    else
      match IndexOf(items[1..], id)
      case None => None
      case Some(i) => Some(i + 1)
  }

  /** A record with id `id` is live exactly when there is a first one. */
  lemma FirstAtOrAbsent<P>(items: seq<Record<P>>, id: int)
    ensures Absent(items, id) || exists i :: FirstAt(items, id, i)
  {
    if IndexOf(items, id).Some? {
      assert FirstAt(items, id, IndexOf(items, id).value);
    }
  }

  // ---------------------------------------------------------------------------
  // Operations

  /** Insert: accept a positive caller id unless used, otherwise auto-assign. */
  function Insert<P>(s: Store<P>, r: Record<P>): (st: Step<P, Record<P>>)
    ensures r.id > 0 && r.id in s.used ==> st == Step(s, Err(AlreadyExists))
    ensures r.id > 0 && r.id !in s.used ==>
              st == Step(Store(s.items + [r], s.used + {r.id}, s.counter), Ok(r))
    ensures r.id <= 0 ==>
              && st.result.Ok?
              && LeastFreshAbove(s.used, s.counter, st.result.value.id)
              && st.result.value.payload == r.payload
              && st.store == Store(s.items + [st.result.value], s.used + {st.result.value.id},
                                   st.result.value.id)
  {
    if r.id > 0 then
      if r.id in s.used then Step(s, Err(AlreadyExists))
      else Step(Store(s.items + [r], s.used + {r.id}, s.counter), Ok(r))
    else
      var id := NextId(s.used, s.counter);
      var stored := r.(id := id);
      Step(Store(s.items + [stored], s.used + {id}, id), Ok(stored))
  }

  /** FindAll: the live records in insertion order; it never fails. */
  function FindAll<P>(s: Store<P>): (r: Result<seq<Record<P>>>)
    ensures r.Ok?
    ensures |r.value| == |s.items|
    ensures forall i :: 0 <= i < |s.items| ==> r.value[i] == s.items[i]
  {
    Ok(s.items)
  }

  /** FindByID: the first record with id `id`, or NotFound. */
  function FindByID<P>(s: Store<P>, id: int): (r: Result<Record<P>>)
    ensures r.Ok? ==> r.value.id == id && exists i :: FirstAt(s.items, id, i) && s.items[i] == r.value
    ensures r.Err? <==> Absent(s.items, id)
    ensures r.Err? ==> r.error == NotFound
  {
    match IndexOf(s.items, id)
    case Some(i) => Ok(s.items[i])
    case None => Err(NotFound)
  }

  /** Update: overwrite the first record with the same id, in place. */
  function Update<P>(s: Store<P>, r: Record<P>): (st: Step<P, ()>)
    ensures Absent(s.items, r.id) ==> st == Step(s, Err(NotFound))
    ensures forall i :: FirstAt(s.items, r.id, i) ==>
              st == Step(Store(s.items[i := r], s.used, s.counter), Ok(()))
  {
    match IndexOf(s.items, r.id)
    case Some(i) => Step(Store(s.items[i := r], s.used, s.counter), Ok(()))
    case None => Step(s, Err(NotFound))
  }

  /** DeleteByID: a stable remove of the first record with id `id`; `used` keeps the id. */
  function DeleteByID<P>(s: Store<P>, id: int): (st: Step<P, ()>)
    ensures Absent(s.items, id) ==> st == Step(s, Err(NotFound))
    ensures forall i :: FirstAt(s.items, id, i) ==>
              st == Step(Store(s.items[..i] + s.items[i + 1..], s.used, s.counter), Ok(()))
  {
    match IndexOf(s.items, id)
    case Some(i) => Step(Store(s.items[..i] + s.items[i + 1..], s.used, s.counter), Ok(()))
    case None => Step(s, Err(NotFound))
  }

  // ---------------------------------------------------------------------------
  // The first record is the only one in a valid store

  /** In a valid store a live id sits at exactly one index. */
  lemma FirstAtIsOnly<P>(s: Store<P>, id: int, i: int, j: int)
    requires Valid(s)
    requires FirstAt(s.items, id, i)
    requires 0 <= j < |s.items| && s.items[j].id == id
    ensures i == j
  {
  }

  /** Ids not in `used` are not live in a valid store, and neither are non-positive ids. */
  lemma NotUsedIsAbsent<P>(s: Store<P>, id: int)
    requires Valid(s)
    requires id !in s.used || id <= 0
    ensures Absent(s.items, id)
  {
  }

  // ---------------------------------------------------------------------------
  // Preservation of the invariant

  lemma EmptyValid<P>()
    ensures Valid(Empty<P>())
  {
  }

  lemma InsertPreservesValid<P>(s: Store<P>, r: Record<P>)
    requires Valid(s)
    ensures Valid(Insert(s, r).store)
    ensures Insert(s, r).result.Ok? ==> Insert(s, r).result.value.id > 0
  {
    var st := Insert(s, r);
    if st.result.Ok? {
      var n := st.result.value;
      assert n.id !in s.used;
      assert st.store.items == s.items + [n];
      forall i, j | 0 <= i < j < |st.store.items|
        ensures st.store.items[i].id != st.store.items[j].id
      {
        if j == |s.items| {
          assert st.store.items[i] == s.items[i];
        }
      }
    }
  }

  lemma UpdatePreservesValid<P>(s: Store<P>, r: Record<P>)
    requires Valid(s)
    ensures Valid(Update(s, r).store)
  {
    var idx := IndexOf(s.items, r.id);
    if idx.Some? {
      var i := idx.value;
      var t := s.items[i := r];
      assert Update(s, r).store.items == t;
      forall a, b | 0 <= a < b < |t|
        ensures t[a].id != t[b].id
      {
        assert s.items[a].id != s.items[b].id;
      }
    }
  }

  lemma DeletePreservesValid<P>(s: Store<P>, id: int)
    requires Valid(s)
    ensures Valid(DeleteByID(s, id).store)
  {
    var idx := IndexOf(s.items, id);
    if idx.Some? {
      var i := idx.value;
      var t := s.items[..i] + s.items[i + 1..];
      assert DeleteByID(s, id).store.items == t;
      forall a | 0 <= a < |t|
        ensures t[a] == s.items[if a < i then a else a + 1]
      {
      }
    }
  }

  // ---------------------------------------------------------------------------
  // Writes read back

  /** In a valid store, the record an Insert accepted is what FindByID returns for its id. */
  lemma InsertThenFind<P>(s: Store<P>, r: Record<P>)
    requires Valid(s)
    requires Insert(s, r).result.Ok?
    ensures var st := Insert(s, r);
            FindByID(st.store, st.result.value.id) == Ok(st.result.value)
  {
    var st := Insert(s, r);
    var n := st.result.value;
    NotUsedIsAbsent(s, n.id);
    assert FirstAt(st.store.items, n.id, |s.items|);
  }

  /** In a valid store, after an Update of a live id FindByID returns the new record. */
  lemma UpdateThenFind<P>(s: Store<P>, r: Record<P>)
    requires Valid(s)
    requires !Absent(s.items, r.id)
    ensures FindByID(Update(s, r).store, r.id) == Ok(r)
  {
    FirstAtOrAbsent(s.items, r.id);
    var i :| FirstAt(s.items, r.id, i);
    assert FirstAt(s.items[i := r], r.id, i);
  }

  // ---------------------------------------------------------------------------
  // Arbitrary sequences of operations

  datatype Op<P> = InsertOp(record: Record<P>) | UpdateOp(record: Record<P>) | DeleteOp(id: int)

  function Apply<P>(s: Store<P>, op: Op<P>): Store<P> {
    match op
    case InsertOp(r) => Insert(s, r).store
    case UpdateOp(r) => Update(s, r).store
    case DeleteOp(id) => DeleteByID(s, id).store
  }

  function Run<P>(s: Store<P>, ops: seq<Op<P>>): Store<P>
    decreases |ops|
  {
    if |ops| == 0 then s else Run(Apply(s, ops[0]), ops[1..])
  }

  /** Every operation keeps the invariant. */
  lemma ApplyPreservesValid<P>(s: Store<P>, op: Op<P>)
    requires Valid(s)
    ensures Valid(Apply(s, op))
  {
    match op
    case InsertOp(r) => InsertPreservesValid(s, r);
    case UpdateOp(r) => UpdatePreservesValid(s, r);
    case DeleteOp(id) => DeletePreservesValid(s, id);
  }

  /** Any sequence of Insert/Update/DeleteByID from a valid store keeps the invariant. */
  lemma {:induction false} RunPreservesValid<P>(s: Store<P>, ops: seq<Op<P>>)
    requires Valid(s)
    ensures Valid(Run(s, ops))
    decreases |ops|
  {
    if |ops| > 0 {
      ApplyPreservesValid(s, ops[0]);
      RunPreservesValid(Apply(s, ops[0]), ops[1..]);
    }
  }

  /** Starting from a fresh repository, live ids stay distinct and used. */
  lemma ReachableIsValid<P>(ops: seq<Op<P>>)
    ensures Unique(Run(Empty<P>(), ops).items)
    ensures forall i :: 0 <= i < |Run(Empty<P>(), ops).items| ==>
              Run(Empty<P>(), ops).items[i].id in Run(Empty<P>(), ops).used
  {
    EmptyValid<P>();
    RunPreservesValid(Empty<P>(), ops);
  }

  /** No operation shrinks `used` or lowers the counter. */
  lemma {:induction false} RunKeepsUsed<P>(s: Store<P>, ops: seq<Op<P>>)
    ensures s.used <= Run(s, ops).used
    ensures s.counter <= Run(s, ops).counter
    decreases |ops|
  {
    if |ops| > 0 {
      var t := Apply(s, ops[0]);
      assert s.used <= t.used && s.counter <= t.counter by {
        match ops[0]
        case InsertOp(r) =>
        case UpdateOp(r) =>
          FirstAtOrAbsent(s.items, r.id);
        case DeleteOp(id) =>
          FirstAtOrAbsent(s.items, id);
      }
      RunKeepsUsed(t, ops[1..]);
    }
  }

  /**
    A deleted id is retired for good: whatever happens afterwards, inserting it
    explicitly fails with AlreadyExists and auto-assignment never returns it.
   */
  lemma DeletedIdRetired<P>(s: Store<P>, id: int, ops: seq<Op<P>>, r: Record<P>)
    requires Valid(s)
    requires DeleteByID(s, id).result.Ok?
    ensures var t := Run(DeleteByID(s, id).store, ops);
            && (r.id == id ==> Insert(t, r).result == Err(AlreadyExists))
            && (r.id <= 0 ==> Insert(t, r).result.value.id != id)
  {
    FirstAtOrAbsent(s.items, id);
    var i :| FirstAt(s.items, id, i);
    assert id in s.used && id > 0;
    RunKeepsUsed(DeleteByID(s, id).store, ops);
  }
}
