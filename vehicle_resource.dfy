/** VehiculoResource: the controller that registers, updates, lists, fetches
    and deletes vehicle records. The record store it saves into (the
    repository) is held as a map and an id counter; the capacity service it
    asks is injected through the constructor, as in the source. */
module Resource {
  import opened VehicleStore
  import opened Admission
  import Registry

  class VehicleResource {
    /** The repository's records, keyed by id. */
    var store: Store
    /** The id the repository hands out on the next insert. */
    var nextId: int
    /** VehiculoService.hayCupo: `true` means no room left for that type. */
    const atCapacity: CapacityCheck

    /** The registry state this object holds. */
    function State(): Registry.State
      reads this
    {
      Registry.State(store, nextId)
    }

    ghost predicate Valid()
      reads this
    {
      Registry.Valid(State())
    }

    /** A controller over a repository that may already hold records
        (`initial`, with `next` the id it hands out next), asking the given
        capacity service. */
    constructor (initial: Store, next: int, atCapacity: CapacityCheck)
      requires Registry.Valid(Registry.State(initial, next))
      ensures Valid()
      ensures store == initial && nextId == next && this.atCapacity == atCapacity
    {
      store := initial;
      nextId := next;
      this.atCapacity := atCapacity;
    }

    /** createVehiculo: the three guards, each rejecting before anything is
        saved, then the save, which hands out a fresh id. */
    method CreateVehicle(c: Vehicle) returns (r: Registry.Result)
      requires Valid()
      modifies this
      ensures Valid()
      ensures Registry.Reply(r, State()) == Registry.Create(old(State()), atCapacity, c)
      ensures r.Err? ==> store == old(store) && nextId == old(nextId)
      ensures r.Ok? ==> r.value.id.Some? && r.value.id.value !in old(store)
                        && store == old(store)[r.value.id.value := r.value]
    {
      if c.id.Some? {
        return Registry.Err(IdExists);
      }
      if FindByPlateAndType(store, c.plate, c.kind) != {} {
        return Registry.Err(PlacaExist);
      }
      match c.kind {
        case Moto =>
          if atCapacity(store, Moto) {
            return Registry.Err(MotoMax);
          }
        case Carro =>
          if atCapacity(store, Carro) {
            return Registry.Err(CarroMax);
          }
      }
      var saved := c.(id := Some(nextId));
      store := store[nextId := saved];
      nextId := nextId + 1;
      r := Registry.Ok(saved);
    }

    /** updateVehiculo: without an id, a create; with one, a save under that
        id with no guard. */
    method UpdateVehicle(v: Vehicle) returns (r: Registry.Result)
      requires Valid()
      modifies this
      ensures Valid()
      ensures Registry.Reply(r, State()) == Registry.Update(old(State()), atCapacity, v)
      ensures v.id.Some? ==> r == Registry.Ok(v) && store == old(store)[v.id.value := v]
    {
      if v.id.None? {
        r := CreateVehicle(v);
        return;
      }
      var i := v.id.value;
      store := store[i := v];
      if nextId <= i {
        nextId := i + 1;
      }
      r := Registry.Ok(v);
    }

    /** getAllVehiculos: every stored record once, in ascending id order. */
    function GetAllVehicles(): (r: seq<Vehicle>)
      reads this
      requires Valid()
      ensures |r| == |store|
      ensures forall i :: 0 <= i < |r| ==> r[i].id.Some? && r[i].id.value in store && store[r[i].id.value] == r[i]
      ensures forall k :: k in store ==> store[k] in r
    {
      FindAll(store)
    }

    /** getVehiculo: the record stored under `id` (carrying that id), or not found. */
    function GetVehicle(id: int): (r: Option<Vehicle>)
      reads this
      requires Valid()
      ensures r.Some? <==> id in store
      ensures r.Some? ==> r.value == store[id] && r.value.id == Some(id)
    {
      Registry.Get(State(), id)
    }

    /** deleteVehiculo: the record under `id` is removed; an absent id is left
        absent. */
    method DeleteVehicle(id: int)
      requires Valid()
      modifies this
      ensures Valid()
      ensures State() == Registry.Delete(old(State()), id)
      ensures id !in store && forall k :: k != id && k in old(store) ==> k in store && store[k] == old(store)[k]
    {
      store := store - {id};
    }
  }

  /** The capacity check of the worked examples below: cars are full from two
      stored cars on, motorcycles never. */
  function TwoCarLimit(s: Store, t: VehicleType): bool
  {
    t == Carro && CountByType(s, Carro) >= 2
  }

  /** A worked example over an empty store: two cars are admitted, a third is
      refused with carromax, and a repeated plate is refused with placaexist
      even though the type is full. */
  method CarCapacityExample()
  {
    var resource := new VehicleResource(map[], 1, TwoCarLimit);
    assert IdsOfType(resource.store, Carro) == {};

    var a := resource.CreateVehicle(Vehicle(None, "AAA111", Carro, map[]));
    assert a.Ok?;
    var idA := a.value.id.value;
    assert resource.store == map[idA := a.value];
    assert CountByType(resource.store, Carro) == 1 by {
      assert IdsOfType(resource.store, Carro) == {idA};
    }
    assert FindByPlateAndType(resource.store, "BBB222", Carro) == {};

    var b := resource.CreateVehicle(Vehicle(None, "BBB222", Carro, map[]));
    assert b.Ok?;
    var idB := b.value.id.value;
    assert resource.store == map[idA := a.value, idB := b.value] && idA != idB;
    assert CountByType(resource.store, Carro) == 2 by {
      assert IdsOfType(resource.store, Carro) == {idA, idB};
    }

    var c := resource.CreateVehicle(Vehicle(None, "CCC333", Carro, map[]));
    assert c == Registry.Err(CarroMax);
    assert idA in FindByPlateAndType(resource.store, "AAA111", Carro);

    var again := resource.CreateVehicle(Vehicle(None, "AAA111", Carro, map[]));
    assert again == Registry.Err(PlacaExist);
  }

  /** A worked example over a repository that already holds two cars: after
      one of them leaves, the next car is admitted. */
  method CarLeavesExample()
  {
    var a := Vehicle(Some(1), "AAA111", Carro, map[]);
    var b := Vehicle(Some(2), "BBB222", Carro, map[]);
    var resource := new VehicleResource(map[1 := a, 2 := b], 3, TwoCarLimit);

    resource.DeleteVehicle(1);
    assert resource.store == map[2 := b];
    assert CountByType(resource.store, Carro) == 1 by {
      assert IdsOfType(resource.store, Carro) == {2};
    }
    assert FindByPlateAndType(resource.store, "CCC333", Carro) == {};

    var d := resource.CreateVehicle(Vehicle(None, "CCC333", Carro, map[]));
    assert d.Ok?;
  }
}
