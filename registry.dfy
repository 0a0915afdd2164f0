/** What each VehiculoResource operation does to the registry, as functions
    from the state before the call to the reply and the state after it. The
    class in module Resource is proved to behave exactly like these functions;
    the lemmas here say what that behaviour guarantees. */
module Registry {
  import opened VehicleStore
  import opened Admission

  /** The record store (id -> record) and the next id the store will hand out. */
  datatype State = State(store: Store, nextId: int)

  /** Every record is stored under its own id, and every stored id is below the
      next id to be handed out, so a freshly handed-out id is unused. */
  predicate Valid(g: State)
  {
    WellKeyed(g.store) && forall k :: k in g.store ==> k < g.nextId
  }

  /** The outcome of a create or update: the saved record, or the rejection. */
  datatype Result = Ok(value: Vehicle) | Err(error: AdmissionError)

  datatype Reply = Reply(result: Result, after: State)

  /** createVehiculo: reject with the first failing guard and change nothing,
      or save the candidate under a fresh id and return the saved record. */
  function Create(g: State, atCapacity: CapacityCheck, c: Vehicle): (out: Reply)
    ensures out.result.Err? <==> Admit(g.store, atCapacity, c).Some?
    ensures out.result.Err? ==> Admit(g.store, atCapacity, c) == Some(out.result.error) && out.after == g
  {
    match Admit(g.store, atCapacity, c)
    case Some(e) => Reply(Err(e), g)
    case None =>
      var saved := c.(id := Some(g.nextId));
      Reply(Ok(saved), State(g.store[g.nextId := saved], g.nextId + 1))
  }

  /** updateVehiculo: a record without an id goes through createVehiculo; a
      record with an id is saved under that id with no guard at all. The id
      counter moves past an id it has not handed out yet, so that it never
      hands it out again. */
  function Update(g: State, atCapacity: CapacityCheck, v: Vehicle): (out: Reply)
    ensures v.id.None? ==> out == Create(g, atCapacity, v)
    ensures v.id.Some? ==> out.result == Ok(v) && v.id.value in out.after.store && out.after.store[v.id.value] == v
    ensures v.id.Some? ==> out.after.store.Keys == g.store.Keys + {v.id.value}
  {
    match v.id
    case None => Create(g, atCapacity, v)
    case Some(i) => Reply(Ok(v), State(g.store[i := v], if i < g.nextId then g.nextId else i + 1))
  }

  /** getVehiculo: the record stored under `id`, or `None` (not found). */
  function Get(g: State, id: int): (r: Option<Vehicle>)
    ensures r.Some? <==> id in g.store
    ensures r.Some? ==> r.value == g.store[id]
    ensures Valid(g) && r.Some? ==> r.value.id == Some(id)
  {
    if id in g.store then Some(g.store[id]) else None
  }

  /** deleteVehiculo: `id` is no longer stored. */
  function Delete(g: State, id: int): (after: State)
    ensures after.store.Keys == g.store.Keys - {id}
    ensures forall k :: k in after.store ==> after.store[k] == g.store[k]
    ensures |after.store| == |g.store| - (if id in g.store then 1 else 0)
    ensures after.nextId == g.nextId
  {
    State(g.store - {id}, g.nextId)
  }

  /** A successful create adds exactly one record: the candidate's plate, type
      and other fields under an id that was not in use, retrievable by that id;
      every other record stays, the count of the candidate's type goes up by one
      and the other type's count does not move. Validity and the absence of
      duplicate (plate, type) pairs are kept. */
  lemma {:induction false} CreateAddsOne(g: State, atCapacity: CapacityCheck, c: Vehicle)
    requires Valid(g)
    requires Create(g, atCapacity, c).result.Ok?
    ensures var out := Create(g, atCapacity, c);
            var v := out.result.value;
            && v.id.Some? && v.id.value !in g.store
            && v.plate == c.plate && v.kind == c.kind && v.details == c.details
            && out.after.store == g.store[v.id.value := v]
            && |out.after.store| == |g.store| + 1
            && Get(out.after, v.id.value) == Some(v)
            && (forall k :: k in g.store ==> Get(out.after, k) == Get(g, k))
            && (forall t :: CountByType(out.after.store, t) == CountByType(g.store, t) + (if t == c.kind then 1 else 0))
            && Valid(out.after)
            && (PlatesUnique(g.store) ==> PlatesUnique(out.after.store))
  {
    var out := Create(g, atCapacity, c);
    var v := out.result.value;
    var i := g.nextId;
    assert i !in g.store;
    assert out.after.store.Keys == g.store.Keys + {i};
    forall t ensures CountByType(out.after.store, t) == CountByType(g.store, t) + (if t == c.kind then 1 else 0) {
      CountAfterInsert(g.store, i, v, t);
    }
    if PlatesUnique(g.store) {
      UniqueAfterInsert(g.store, i, v);
    }
  }

  /** Only the id guard looks at the id, so a candidate that already has one is
      refused however the rest of the registry looks, and nothing changes. */
  lemma CreateWithIdRefused(g: State, atCapacity: CapacityCheck, c: Vehicle)
    requires c.id.Some?
    ensures Create(g, atCapacity, c) == Reply(Err(IdExists), g)
  {
  }

  /** Guard order on two combined failures: an id beats a duplicate, and a
      duplicate beats a full type. */
  lemma GuardOrder(g: State, atCapacity: CapacityCheck, c: Vehicle)
    requires FindByPlateAndType(g.store, c.plate, c.kind) != {}
    ensures c.id.Some? ==> Create(g, atCapacity, c).result == Err(IdExists)
    ensures c.id.None? && atCapacity(g.store, c.kind) ==> Create(g, atCapacity, c).result == Err(PlacaExist)
  {
  }

  /** Starting from a valid registry, every operation leaves a valid one. */
  lemma {:induction false} OperationsKeepValid(g: State, atCapacity: CapacityCheck, v: Vehicle, id: int)
    requires Valid(g)
    ensures Valid(Create(g, atCapacity, v).after)
    ensures Valid(Update(g, atCapacity, v).after)
    ensures Valid(Delete(g, id))
  {
    if Create(g, atCapacity, v).result.Ok? {
      CreateAddsOne(g, atCapacity, v);
    }
    if v.id.Some? {
      UpdateWithIdOverwrites(g, atCapacity, v);
    }
  }

  /** An update without an id is a create: same reply, same new state. */
  lemma UpdateWithoutIdIsCreate(g: State, atCapacity: CapacityCheck, v: Vehicle)
    requires v.id.None?
    ensures Update(g, atCapacity, v) == Create(g, atCapacity, v)
  {
  }

  /** An update with an id always succeeds, whatever the capacity check says:
      the record is stored under its id, overwriting any earlier one, and every
      other record stays. */
  lemma {:induction false} UpdateWithIdOverwrites(g: State, atCapacity: CapacityCheck, v: Vehicle)
    requires Valid(g) && v.id.Some?
    ensures var out := Update(g, atCapacity, v);
            && out.result == Ok(v)
            && Get(out.after, v.id.value) == Some(v)
            && (forall k :: k != v.id.value ==> Get(out.after, k) == Get(g, k))
            && |out.after.store| == |g.store| + (if v.id.value in g.store then 0 else 1)
            && Valid(out.after)
  {
    var i := v.id.value;
    var out := Update(g, atCapacity, v);
    if i in g.store {
      assert out.after.store.Keys == g.store.Keys;
    } else {
      assert out.after.store.Keys == g.store.Keys + {i};
    }
  }

  /** Update does not ask the duplicate guard: updating a record so that it
      takes the (plate, type) pair of another stored record is accepted and
      leaves two records with that pair. */
  lemma {:induction false} UpdateCanDuplicate(g: State, atCapacity: CapacityCheck, v: Vehicle, j: int)
    requires v.id.Some? && j != v.id.value && j in g.store
    requires g.store[j].plate == v.plate && g.store[j].kind == v.kind
    ensures Update(g, atCapacity, v).result == Ok(v)
    ensures !PlatesUnique(Update(g, atCapacity, v).after.store)
  {
    var s := Update(g, atCapacity, v).after.store;
    var i := v.id.value;
    assert s[i] == v && s[j] == g.store[j];
  }

  /** After a delete the id is not found, every other lookup answers as before,
      and the deleted record's type has one fewer record (a freed slot). */
  lemma {:induction false} DeleteRemoves(g: State, id: int)
    ensures Get(Delete(g, id), id).None?
    ensures forall k :: k != id ==> Get(Delete(g, id), k) == Get(g, k)
    ensures forall t :: CountByType(Delete(g, id).store, t) ==
                          CountByType(g.store, t) - (if id in g.store && g.store[id].kind == t then 1 else 0)
  {
    forall t ensures CountByType(Delete(g, id).store, t) ==
                       CountByType(g.store, t) - (if id in g.store && g.store[id].kind == t then 1 else 0)
    {
      CountAfterRemove(g.store, id, t);
    }
  }
}
