/** Vehicle records and the queries the registry asks of the record store
    (the JPA repository behind VehiculoResource). The store is a map from
    id to record; the queries are functions over it. */
module VehicleStore {

  datatype Option<T> = None | Some(value: T)

  /** TipoVehiculo: the two vehicle types the admission rules distinguish. */
  datatype VehicleType = Moto | Carro

  /** A vehicle record (VehiculoDTO and the Vehiculo entity are taken to be the
      same record). `id` is absent until the store assigns one; `details`
      stands for the descriptive fields (owner, entry time, ...) that the
      admission rules never look at and that are passed through unchanged. */
  datatype Vehicle = Vehicle(id: Option<int>, plate: string, kind: VehicleType, details: map<string, string>)

  /** The persisted records, keyed by id. */
  type Store = map<int, Vehicle>

  /** findByPlacaAndTipo: the ids of the stored records with this plate and type. */
  function FindByPlateAndType(s: Store, plate: string, kind: VehicleType): (ids: set<int>)
    ensures ids <= s.Keys
    ensures forall k :: k in ids ==> s[k].plate == plate && s[k].kind == kind
    ensures ids == {} <==> forall k :: k in s ==> !(s[k].plate == plate && s[k].kind == kind)
  {
    var ids := set k | k in s && s[k].plate == plate && s[k].kind == kind;
    assert ids == {} <==> forall k :: k in s ==> !(s[k].plate == plate && s[k].kind == kind) by {
      if ids == {} {
        forall k | k in s ensures !(s[k].plate == plate && s[k].kind == kind) {
          assert k !in ids;
        }
      }
      if forall k :: k in s ==> !(s[k].plate == plate && s[k].kind == kind) {
        assert forall k :: k !in ids;
      }
    }
    ids
  }

  /** The ids of the stored records of one type. */
  function IdsOfType(s: Store, kind: VehicleType): set<int>
  {
    set k | k in s && s[k].kind == kind
  }

  /** countByType: how many stored records have this type. */
  function CountByType(s: Store, kind: VehicleType): nat
  {
    |IdsOfType(s, kind)|
  }

  /** Every stored record carries the id it is stored under. */
  predicate WellKeyed(s: Store)
  {
    forall k :: k in s ==> s[k].id == Some(k)
  }

  /** No two stored records share the same (plate, type) pair. */
  predicate PlatesUnique(s: Store)
  {
    forall j, k :: j in s && k in s && s[j].plate == s[k].plate && s[j].kind == s[k].kind ==> j == k
  }

  /** `m` is the smallest id of `ids`. */
  predicate IsLeast(m: int, ids: set<int>)
  {
    m in ids && forall k :: k in ids ==> m <= k
  }

  lemma NonEmptyHasElement(ids: set<int>)
    requires ids != {}
    ensures exists x :: x in ids
  {
    if forall x :: x !in ids {
      assert false;
    }
  }

  /** Every non-empty finite set of ids has a least element. */
  lemma {:induction false} LeastExists(ids: set<int>)
    requires ids != {}
    ensures exists m :: IsLeast(m, ids)
  {
    NonEmptyHasElement(ids);
    var x :| x in ids;
    if ids == {x} {
      assert IsLeast(x, ids);
    } else {
      var rest := ids - {x};
      LeastExists(rest);
      var m :| IsLeast(m, rest);
      var least := if x < m then x else m;
      forall k | k in ids ensures least <= k {
        if k != x { assert k in rest; }
      }
      assert IsLeast(least, ids);
    }
  }

  /** The smallest id of a non-empty set. */
  function Least(ids: set<int>): (m: int)
    requires ids != {}
    ensures IsLeast(m, ids)
  {
    LeastExists(ids);
    var m :| IsLeast(m, ids);
    m
  }

  /** `r` lists the ids of `ids` in strictly ascending order, each exactly once. */
  predicate AscendingListOf(r: seq<int>, ids: set<int>)
  {
    && |r| == |ids|
    && (forall i :: 0 <= i < |r| ==> r[i] in ids)
    && (forall k :: k in ids ==> k in r)
    && (forall i, j :: 0 <= i < j < |r| ==> r[i] < r[j])
  }

  /** Putting the least id in front of an ascending list of the others gives an
      ascending list of all of them. */
  lemma PrependLeast(ids: set<int>, m: int, rest: seq<int>)
    requires IsLeast(m, ids)
    requires AscendingListOf(rest, ids - {m})
    ensures AscendingListOf([m] + rest, ids)
  {
    var others := ids - {m};
    var r := [m] + rest;
    assert |others| == |ids| - 1;
    forall i | 0 <= i < |r| ensures r[i] in ids {
      if i > 0 { assert r[i] == rest[i - 1] && rest[i - 1] in others; }
    }
    forall k | k in ids ensures k in r {
      if k != m {
        assert k in others;
        var i :| 0 <= i < |rest| && rest[i] == k;
        assert r[i + 1] == k;
      }
    }
    forall i, j | 0 <= i < j < |r| ensures r[i] < r[j] {
      assert r[j] == rest[j - 1] && rest[j - 1] in others;
      if i > 0 { assert r[i] == rest[i - 1]; }
    }
  }

  /** The ids of a set in ascending order, each exactly once. */
  function SortedIds(ids: set<int>): (r: seq<int>)
    ensures AscendingListOf(r, ids)
    decreases ids
  {
    if ids == {} then []
    else
      var m := Least(ids);
      var rest := SortedIds(ids - {m});
      PrependLeast(ids, m, rest);
      [m] + rest
  }

  /** findAll: every stored record exactly once, in ascending order of id
      (the store's own order is not specified; ascending id is the one chosen
      here). */
  function FindAll(s: Store): (r: seq<Vehicle>)
    ensures |r| == |s|
    ensures forall i :: 0 <= i < |r| ==> r[i] in s.Values
    ensures forall v :: v in s.Values ==> v in r
    ensures WellKeyed(s) ==> forall i, j :: 0 <= i < j < |r| ==> r[i].id.Some? && r[j].id.Some? && r[i].id.value < r[j].id.value
  {
    var ids := SortedIds(s.Keys);
    var r := RecordsAt(s, ids);
    FindAllContents(s, ids, r);
    r
  }

  /** The records stored under `ids`, in the order of `ids`. */
  function RecordsAt(s: Store, ids: seq<int>): (r: seq<Vehicle>)
    requires forall i :: 0 <= i < |ids| ==> ids[i] in s
    ensures |r| == |ids|
    ensures forall i :: 0 <= i < |ids| ==> r[i] == s[ids[i]]
  {
    if ids == [] then [] else [s[ids[0]]] + RecordsAt(s, ids[1..])
  }

  lemma FindAllContents(s: Store, ids: seq<int>, r: seq<Vehicle>)
    requires |ids| == |s.Keys| && |r| == |ids|
    requires forall k :: k in s ==> k in ids
    requires forall i :: 0 <= i < |ids| ==> ids[i] in s && r[i] == s[ids[i]]
    requires forall i, j :: 0 <= i < j < |ids| ==> ids[i] < ids[j]
    ensures |r| == |s|
    ensures forall i :: 0 <= i < |r| ==> r[i] in s.Values
    ensures forall v :: v in s.Values ==> v in r
    ensures WellKeyed(s) ==> forall i, j :: 0 <= i < j < |r| ==> r[i].id.Some? && r[j].id.Some? && r[i].id.value < r[j].id.value
  {
    assert |s.Keys| == |s|;
    forall k | k in s ensures s[k] in r {
      var i :| 0 <= i < |ids| && ids[i] == k;
      assert r[i] == s[k];
    }
  }

  /** Storing a record under an unused id adds exactly one to the count of its
      type and leaves the count of the other type alone. */
  lemma {:induction false} CountAfterInsert(s: Store, k: int, v: Vehicle, t: VehicleType)
    requires k !in s
    ensures CountByType(s[k := v], t) == CountByType(s, t) + (if v.kind == t then 1 else 0)
  {
    if v.kind == t {
      assert IdsOfType(s[k := v], t) == IdsOfType(s, t) + {k};
    } else {
      assert IdsOfType(s[k := v], t) == IdsOfType(s, t);
    }
  }

  /** Removing an id takes one off the count of the removed record's type and
      leaves every other count alone; removing an absent id changes nothing. */
  lemma {:induction false} CountAfterRemove(s: Store, k: int, t: VehicleType)
    ensures CountByType(s - {k}, t) == CountByType(s, t) - (if k in s && s[k].kind == t then 1 else 0)
  {
    if k in s && s[k].kind == t {
      assert IdsOfType(s, t) == IdsOfType(s - {k}, t) + {k};
    } else {
      assert IdsOfType(s - {k}, t) == IdsOfType(s, t);
    }
  }

  /** A record whose (plate, type) pair is not yet stored keeps the store free
      of duplicate pairs when it is stored under an unused id. */
  lemma {:induction false} UniqueAfterInsert(s: Store, k: int, v: Vehicle)
    requires PlatesUnique(s) && k !in s
    requires FindByPlateAndType(s, v.plate, v.kind) == {}
    ensures PlatesUnique(s[k := v])
  {
    var same := FindByPlateAndType(s, v.plate, v.kind);
    assert forall j :: j in s ==> (j in same <==> s[j].plate == v.plate && s[j].kind == v.kind);
  }
}
