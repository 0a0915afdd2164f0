/** The admission rules VehiculoResource applies before a new vehicle record
    is saved: the id guard, the duplicate (plate, type) guard and the
    per-type capacity guard, in that order. */
module Admission {
  import opened VehicleStore

  /** ENTITY_NAME, the entity every rejection is reported against. */
  const EntityName: string := "vehiculo"

  /** The four reasons a create is rejected. */
  datatype AdmissionError = IdExists | PlacaExist | MotoMax | CarroMax

  /** The fields of the BadRequestAlertException a rejection raises. */
  datatype Alert = Alert(message: string, entityName: string, errorKey: string)

  /** The alert raised for each rejection, with the controller's own messages
      and error keys. */
  function AlertOf(e: AdmissionError): (a: Alert)
    ensures a.entityName == EntityName
  {
    match e
    case IdExists => Alert("A new vehiculo cannot already have an ID", EntityName, "idexists")
    case PlacaExist => Alert("El vehiculo ya se encuentra en el parqueadero", EntityName, "placaexist")
    case MotoMax => Alert("Ya no hay cupo para motos", EntityName, "motomax")
    case CarroMax => Alert("Ya no hay cupo para carros", EntityName, "carromax")
  }

  /** Each rejection carries its own error key, so a client can tell them apart. */
  lemma ErrorKeysDistinct(e1: AdmissionError, e2: AdmissionError)
    ensures AlertOf(e1).errorKey == AlertOf(e2).errorKey ==> e1 == e2
  {
  }

  /** VehiculoService.hayCupo, asked about the current store and one vehicle
      type. Its body is not part of this model; as the controller uses it,
      `true` means the type is full and the candidate is rejected. */
  type CapacityCheck = (Store, VehicleType) -> bool

  /** The guards of createVehiculo, in order: `None` admits the candidate,
      `Some(e)` rejects it with `e`. */
  function Admit(s: Store, atCapacity: CapacityCheck, c: Vehicle): (r: Option<AdmissionError>)
    // id guard first: a candidate with an id is refused whatever else holds
    ensures c.id.Some? ==> r == Some(IdExists)
    // then the duplicate guard, before any capacity question is asked
    ensures c.id.None? && FindByPlateAndType(s, c.plate, c.kind) != {} ==> r == Some(PlacaExist)
    // each type is refused on its own capacity answer only
    ensures r == Some(MotoMax) <==>
              c.id.None? && FindByPlateAndType(s, c.plate, c.kind) == {} && c.kind == Moto && atCapacity(s, Moto)
    ensures r == Some(CarroMax) <==>
              c.id.None? && FindByPlateAndType(s, c.plate, c.kind) == {} && c.kind == Carro && atCapacity(s, Carro)
    // admitted exactly when every guard passes
    ensures r.None? <==>
              c.id.None? && FindByPlateAndType(s, c.plate, c.kind) == {} && !atCapacity(s, c.kind)
  {
    if c.id.Some? then Some(IdExists)
    else if FindByPlateAndType(s, c.plate, c.kind) != {} then Some(PlacaExist)
    else
      match c.kind
      case Moto => if atCapacity(s, Moto) then Some(MotoMax) else None
      case Carro => if atCapacity(s, Carro) then Some(CarroMax) else None
  }

  /** The verdict depends on the capacity answer for the candidate's own type
      only: two capacity checks that agree on that type admit and reject alike. */
  lemma AdmitAsksOwnTypeOnly(s: Store, full1: CapacityCheck, full2: CapacityCheck, c: Vehicle)
    requires full1(s, c.kind) == full2(s, c.kind)
    ensures Admit(s, full1, c) == Admit(s, full2, c)
  {
  }
}
