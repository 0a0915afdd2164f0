# Vehicle admission control for a parking-lot registry

This project models `VehiculoResource`, the REST controller of a parking-lot
vehicle registry, in Dafny. The controller creates, updates, lists, fetches
and deletes vehicle records (`Vehiculo`: an id, a plate `placa`, a type
`tipo` that is `MOTO` or `CARRO`, and other descriptive fields). Its only
logic is the admission control applied when a vehicle is created. The guards
run in this order:

1. A candidate that already has an id is refused with `idexists`.
2. A candidate whose plate and type match a stored record is refused with
   `placaexist`.
3. A `MOTO` candidate is refused with `motomax`, and a `CARRO` candidate
   with `carromax`, when the capacity service (`VehiculoService.hayCupo`)
   answers `true` for that type.

Every guard fires before the save. A refused create therefore changes
nothing. An admitted one is saved under a fresh id. An update of a record
without an id is a create. An update of a record with an id is saved as it
is, and no guard is checked.

Layout:

- `vehicle_store.dfy` (module `VehicleStore`): the record, the store as a map
  from id to record, and the repository queries the controller uses
  (`findByPlacaAndTipo`, `findAll`). It also defines the per-type count the
  capacity rule is about, with lemmas on how saves and deletes change it.
- `admission.dfy` (module `Admission`): the error keys and the alerts that
  carry them, the capacity service as a function-typed parameter, and the
  guard chain `Admit`.
- `registry.dfy` (module `Registry`): each operation as a function from the
  registry state (store and id counter) to the reply and the new state. The
  lemmas here state what the operations guarantee.
- `vehicle_resource.dfy` (module `Resource`): the class `VehicleResource`.
  Its fields are the store, the id counter and the injected capacity check;
  its constructor takes a repository that may already hold records. Its
  methods follow the controller's code step by step. `CreateVehicle`,
  `UpdateVehicle` and `DeleteVehicle` are each proved equal to the
  `Registry` function for that operation; `GetVehicle` answers as
  `Registry.Get`, and `GetAllVehicles` returns `VehicleStore.FindAll` of the
  store. `CarCapacityExample` and `CarLeavesExample` walk through a
  car-capacity scenario as clients of those contracts, with a check that
  reports cars full from two stored cars on: a third car is refused, a
  repeated plate is refused before capacity is asked, and a car is admitted
  after one leaves.

The capacity service's body is not part of this model. `CapacityCheck` is
any function from the store and a type to `bool`. As the controller uses it,
`true` means "no room, reject" (`VehiculoResource.java:71-72`, `:75-76`).
`hayCupo`'s body is not shown, so no count formula is assumed; only the
worked examples fix one concrete check.

The error keys are the controller's own (`VehiculoResource.java:61`, `:67`,
`:72`, `:76`). `deleteVehiculo` (`:149-153`) has no branch on whether the id
exists.

## Model

| member | source | states |
|---|---|---|
| `Admission.Admit` | src/main/java/co/ceiba/web/rest/VehiculoResource.java:60-78 | guard order id, duplicate, capacity; `motomax` exactly when the candidate is a MOTO with no duplicate and the check says MOTO is full, `carromax` likewise for CARRO; admitted exactly when no guard fires |
| `Admission.AdmitAsksOwnTypeOnly` | src/main/java/co/ceiba/web/rest/VehiculoResource.java:70-77 | the verdict depends only on the capacity answer for the candidate's own type |
| `Admission.AlertOf` | src/main/java/co/ceiba/web/rest/VehiculoResource.java:61-76 | every rejection is raised against the entity `vehiculo` |
| `Admission.ErrorKeysDistinct` | src/main/java/co/ceiba/web/rest/VehiculoResource.java:60-78 | the four rejections carry four different error keys |
| `Registry.Create` | src/main/java/co/ceiba/web/rest/VehiculoResource.java:57-87 | a create fails exactly when a guard fires; it then fails with that guard's key and leaves the state exactly as it was |
| `Registry.CreateAddsOne` | src/main/java/co/ceiba/web/rest/VehiculoResource.java:80-85 | a successful create stores one record with a previously unused id, the candidate's plate, type and other fields; it is retrievable by that id; all other records are unchanged; the count of its type rises by one and the other type's count stays; validity and plate/type uniqueness are kept |
| `Registry.CreateWithIdRefused` | src/main/java/co/ceiba/web/rest/VehiculoResource.java:60-62 | a candidate with an id is refused with `idexists` whatever the store holds, and nothing changes |
| `Registry.GuardOrder` | src/main/java/co/ceiba/web/rest/VehiculoResource.java:60-78 | an id together with a duplicate gives `idexists`; a duplicate at full capacity gives `placaexist` |
| `Registry.OperationsKeepValid` | src/main/java/co/ceiba/web/rest/VehiculoResource.java:80-151 | create, update and delete keep each record stored under its own id and keep the id counter above every stored id |
| `Registry.UpdateWithoutIdIsCreate` | src/main/java/co/ceiba/web/rest/VehiculoResource.java:102-104 | an update without an id gives the same reply and the same new state as a create |
| `Registry.UpdateWithIdOverwrites` | src/main/java/co/ceiba/web/rest/VehiculoResource.java:105-106 | an update with an id always succeeds, whatever the capacity check says; the record is stored under its id, every other record stays, and the store grows only when the id was new |
| `Registry.UpdateCanDuplicate` | src/main/java/co/ceiba/web/rest/VehiculoResource.java:105-106 | an update that gives a record another stored record's plate and type is accepted, and the store then holds a duplicate pair |
| `Registry.DeleteRemoves` | src/main/java/co/ceiba/web/rest/VehiculoResource.java:149-153 | after a delete the id is not found, every other lookup answers as before, and the deleted record's type has one record fewer |
| `VehicleStore.FindByPlateAndType` | src/main/java/co/ceiba/web/rest/VehiculoResource.java:66 | the lookup returns only stored ids whose record has that plate and type, and is empty exactly when no stored record has both; `UniqueAfterInsert` proves that admitting a candidate the lookup did not find keeps plate/type pairs unique |
| `Registry.Update` | src/main/java/co/ceiba/web/rest/VehiculoResource.java:100-111 | without an id the outcome is that of create; with an id the reply is the record itself, stored under its id, and the set of stored ids grows by at most that id; `UpdateWithIdOverwrites` and `UpdateCanDuplicate` prove it is unguarded |
| `Registry.Get` | src/main/java/co/ceiba/web/rest/VehiculoResource.java:134-139 | found exactly when the id is stored, with the stored record, which in a valid registry carries that id; `CreateAddsOne` and `DeleteRemoves` prove the lookup after a create and after a delete |
| `Registry.Delete` | src/main/java/co/ceiba/web/rest/VehiculoResource.java:149-153 | the stored ids lose exactly `id`, every remaining record is unchanged, the store shrinks by one only when the id was stored, and the id counter stays; `DeleteRemoves` proves the per-type count drops by one |
| `VehicleStore.FindAll` | src/main/java/co/ceiba/web/rest/VehiculoResource.java:122 | the listing has as many entries as the store, holds only stored records, holds every stored record, and is in ascending id order |
| `Resource.VehicleResource.constructor` | src/main/java/co/ceiba/web/rest/VehiculoResource.java:42-46 | the controller is bound to the repository it is handed, with whatever records it already holds and its next id, and to the capacity service it is given |
| `Resource.VehicleResource.CreateVehicle` | src/main/java/co/ceiba/web/rest/VehiculoResource.java:57-87 | behaves exactly like `Registry.Create`; a refusal leaves store and counter unchanged; an admission stores the saved record under an id that was unused |
| `Resource.VehicleResource.UpdateVehicle` | src/main/java/co/ceiba/web/rest/VehiculoResource.java:100-111 | behaves exactly like `Registry.Update`; with an id it returns the record and stores it under that id |
| `Resource.VehicleResource.GetAllVehicles` | src/main/java/co/ceiba/web/rest/VehiculoResource.java:120-124 | every stored record exactly once, each carrying the id it is stored under |
| `Resource.VehicleResource.GetVehicle` | src/main/java/co/ceiba/web/rest/VehiculoResource.java:134-139 | found exactly when the id is stored; the record found carries that id |
| `Resource.VehicleResource.DeleteVehicle` | src/main/java/co/ceiba/web/rest/VehiculoResource.java:149-153 | behaves exactly like `Registry.Delete`: the id is gone and every other record is unchanged |

## Left out

- HTTP plumbing is not modelled: `ResponseEntity`, the `Location` URI, the alert headers built by `HeaderUtil`, `@Timed` and logging. A rejection is returned as an `Err` value with its key instead of a 400 response. Not found is `None` instead of a 404.
- `VehiculoMapper` is not modelled. It is a mapping that is not shown, so the DTO and the entity are taken to be the same record.
- The body of `VehiculoService.hayCupo` is not part of this model. It is a parameter (`CapacityCheck`), so no capacity number or count formula is modelled.
- Bean validation (`@Valid`) is not modelled. A null type, which would make the code at `VehiculoResource.java:70` throw, cannot be represented.
- The `TipoVehiculo` enumeration is not part of this model. It is taken to hold only `MOTO` and `CARRO`, so the path at `:74` where a type is neither cannot be represented.
- The check-then-save race between concurrent creates is not modelled. The model is sequential.
- Repository behaviour that is not shown is fixed as follows:
  - `findAll` lists records in ascending id order.
  - The store hands out ids from a counter kept above every stored id (the worked examples start it at 1).
  - `save` of a record whose id is not stored inserts it under that id, and the counter moves past that id so it is never handed out again. A JPA merge might insert such a record under a newly generated id instead.
  - `delete` of an absent id does nothing. This is the model's choice: the Spring Data 1.x repository API the controller uses (`findOne` at `:136`) throws `EmptyResultDataAccessException` in that case, so the real reply differs.
  - `findByPlacaAndTipo` compares plates by exact string equality. The database's collation may compare them differently (for example ignoring case).
- Ids are unbounded integers: the 64-bit width of `Long` is not modelled.
- `LoginAlreadyUsedException` is not modelled. It belongs to user management, and the vehicle controller never raises it.
