/**
  The page's mutable state: the roster `patients` with the catalog of known
  medicines (the options of the medicine selector), and the object store the
  roster is written through to. Each method does what its handler in
  drScript.js does to that state, step by step, and is proved against the
  specification functions of Adding, Medicines and Persistence.
 */
module PatientRegistry {
  import opened Wrappers
  import opened Text
  import opened Sequences
  import opened Records
  import opened Adding
  import opened Searching
  import opened Medicines
  import opened Persistence

  /** The "patients" object store, whose key path is `name`. */
  class PatientStore {
    var records: map<string, Patient>

    /** Every record sits under its own name, as the key path makes it. */
    predicate Valid()
      reads this
    {
      forall k :: k in records ==> records[k].name == k
    }

    constructor ()
      ensures records == map[] && Valid()
    {
      records := map[];
    }

    /** `store.clear()`. */
    method Clear()
      modifies this
      ensures records == map[] && Valid()
    {
      records := map[];
    }

    /** `store.put(p)`: adds the record, or replaces the one with the same name. */
    method Put(p: Patient)
      requires Valid()
      modifies this
      ensures Valid()
      ensures records == old(records)[p.name := p]
    {
      records := records[p.name := p];
    }

    /** `store.getAll()`: every record once, in an order this model leaves open. */
    method GetAll() returns (loaded: seq<Patient>)
      requires Valid()
      ensures ListsRecords(loaded, records)
    {
      var m := records;
      loaded := [];
      var rest := m.Keys;
      ghost var done: set<string> := {};
      while rest != {}
        invariant done <= m.Keys && rest == m.Keys - done
        invariant ListsKeys(loaded, m, done)
        decreases rest
      {
        var k :| k in rest;
        ListsKeysStep(loaded, m, done, k);
        loaded := loaded + [m[k]];
        rest := rest - {k};
        done := done + {k};
      }
      ListsKeysAll(loaded, m);
    }
  }

  class Registry {
    var patients: seq<Patient>
    var catalog: seq<string>

    /** Every patient has a name and at least one dated checkup. */
    predicate Valid()
      reads this
    {
      AllOk(patients)
    }

    /** The page as it starts: the four demonstration patients. */
    constructor (knownMedicines: seq<string>)
      ensures Valid()
      ensures patients == Seed && catalog == knownMedicines
      ensures DistinctNames(patients) && UniqueKeys(patients)
    {
      patients := Seed;
      catalog := knownMedicines;
      SeedOk();
      SeedNamesDistinct();
      DistinctNamesHaveUniqueKeys(Seed);
    }

    /** `addPatient`: update the patient with that name, or append a new one. */
    method AddPatient(f: PatientForm) returns (outcome: AddOutcome)
      requires Valid()
      modifies this
      ensures Valid()
      ensures outcome == AddOutcomeOf(old(patients), f)
      ensures patients == AfterAdd(old(patients), f)
      ensures DistinctNames(old(patients)) ==> DistinctNames(patients)
      ensures catalog == old(catalog)
    {
      AddKeepsRecordsOk(patients, f);
      ghost var distinct := DistinctNames(patients);
      if distinct {
        AddKeepsNamesDistinct(patients, f);
      }
      var name := Trim(f.name);
      if name == "" || f.lastCheckup == "" {
        outcome := MissingNameOrDate;
        return;
      }
      var existing := FindByName(patients, name);
      match existing {
        case Some(k) =>
          var p := patients[k];
          patients := patients[k := p.(checkups := [NewCheckup(f)] + p.checkups)];
          outcome := Updated(k);
        case None =>
          if f.gender != "" && f.age.Some? && f.nationality != "" {
            patients := patients + [Patient(name, f.gender, f.age.value, f.nationality, [NewCheckup(f)])];
            outcome := Added;
          } else {
            outcome := MissingDetails;
          }
      }
    }

    /** `confirmDelete`: read the name of patient `index`, then splice it out. */
    method Delete(index: nat) returns (name: string)
      requires Valid()
      requires index < |patients|
      modifies this
      ensures Valid()
      ensures name == old(patients)[index].name
      ensures patients == RemoveAt(old(patients), index)
      ensures DistinctNames(old(patients)) ==> DistinctNames(patients)
      ensures catalog == old(catalog)
    {
      name := patients[index].name;
      patients := RemoveAt(patients, index);
    }

    /**
      `addMedicine`: the loop over the comma-separated input. `target` is the
      roster position of the selected patient, None when the list has none.
     */
    method AddMedicines(input: string, target: Option<nat>)
      requires Valid()
      requires target.Some? ==> target.value < |patients|
      modifies this
      ensures Valid()
      ensures MedicineState(catalog, patients) ==
        AbsorbAll(MedicineState(old(catalog), old(patients)), MedicineTokens(input), target)
      ensures DistinctNames(old(patients)) ==> DistinctNames(patients)
    {
      ghost var start := MedicineState(catalog, patients);
      var toks := MedicineTokens(input);
      AbsorbEach(toks, target);
      SameShapeKeepsInvariants(start.patients, patients, target);
    }

    /** The `forEach` of `addMedicine` over the trimmed tokens, in order. */
    method AbsorbEach(toks: seq<string>, target: Option<nat>)
      requires CanTarget(patients, target)
      modifies this
      ensures MedicineState(catalog, patients) == AbsorbAll(MedicineState(old(catalog), old(patients)), toks, target)
    {
      ghost var start := MedicineState(catalog, patients);
      var i := 0;
      while i < |toks|
        invariant 0 <= i <= |toks|
        invariant MedicineState(catalog, patients) == AbsorbAll(start, toks[..i], target)
      {
        AbsorbAllStep(start, toks, i, target);
        AbsorbOne(toks[i], target);
        i := i + 1;
      }
      assert toks[..|toks|] == toks;
    }

    /** The body of the `forEach` in `addMedicine`, for one trimmed token. */
    method AbsorbOne(tok: string, target: Option<nat>)
      requires CanTarget(patients, target)
      modifies this
      ensures MedicineState(catalog, patients) == AbsorbToken(MedicineState(old(catalog), old(patients)), tok, target)
    {
      if tok != "" && !InCatalog(catalog, tok) {
        catalog := catalog + [tok];
        if target.Some? {
          var t := target.value;
          patients := patients[t := AddToFrontCheckup(patients[t], tok)];
        }
      }
    }

    /**
      The whole `addPatient` handler: the roster change, then the save that
      follows an update or an addition. A refused form writes nothing, and
      a store that held the roster before still holds it afterwards.
     */
    method AddPatientAndSave(f: PatientForm, store: PatientStore) returns (outcome: AddOutcome)
      requires Valid()
      modifies this, store
      ensures Valid()
      ensures outcome == AddOutcomeOf(old(patients), f)
      ensures patients == AfterAdd(old(patients), f)
      ensures catalog == old(catalog)
      ensures DistinctNames(old(patients)) ==> DistinctNames(patients)
      ensures outcome.Updated? || outcome.Added? ==> store.records == StoreOf(patients)
      ensures outcome.MissingNameOrDate? || outcome.MissingDetails? ==> store.records == old(store.records)
      ensures old(store.records) == StoreOf(old(patients)) ==> store.records == StoreOf(patients)
    {
      outcome := AddPatient(f);
      if outcome.Updated? || outcome.Added? {
        Save(store);
      }
    }

    /** The whole `confirmDelete` handler: the splice, then the save. */
    method DeleteAndSave(index: nat, store: PatientStore) returns (name: string)
      requires Valid()
      requires index < |patients|
      modifies this, store
      ensures Valid()
      ensures name == old(patients)[index].name
      ensures patients == RemoveAt(old(patients), index)
      ensures catalog == old(catalog)
      ensures DistinctNames(old(patients)) ==> DistinctNames(patients)
      ensures store.records == StoreOf(patients)
    {
      name := Delete(index);
      Save(store);
    }

    /** The whole `addMedicine` handler: the pass over the tokens, then the save. */
    method AddMedicinesAndSave(input: string, target: Option<nat>, store: PatientStore)
      requires Valid()
      requires target.Some? ==> target.value < |patients|
      modifies this, store
      ensures Valid()
      ensures MedicineState(catalog, patients) ==
        AbsorbAll(MedicineState(old(catalog), old(patients)), MedicineTokens(input), target)
      ensures DistinctNames(old(patients)) ==> DistinctNames(patients)
      ensures store.records == StoreOf(patients)
    {
      AddMedicines(input, target);
      Save(store);
    }

    /**
      `searchMedicines`: which catalog entries the selector shows for `term`;
      shown[i] is true when option i is displayed.
     */
    method MedicineVisibility(term: string) returns (shown: seq<bool>)
      ensures |shown| == |catalog|
      ensures forall i :: 0 <= i < |catalog| ==> (shown[i] <==> NameMatches(catalog[i], term))
    {
      var t := Lower(term);
      shown := [];
      for i := 0 to |catalog|
        invariant |shown| == i
        invariant forall j :: 0 <= j < i ==> (shown[j] <==> NameMatches(catalog[j], term))
      {
        var text := Lower(catalog[i]);
        ContainsTrivial(text);
        shown := shown + [t == "" || Contains(text, t)];
      }
    }

    /** `savePatientsToDB`: clear the store, then put every patient in roster order. */
    method Save(store: PatientStore)
      modifies store
      ensures store.Valid()
      ensures store.records == StoreOf(patients)
    {
      store.Clear();
      for i := 0 to |patients|
        invariant store.Valid()
        invariant store.records == StoreOf(patients[..i])
      {
        store.Put(patients[i]);
        assert patients[..i + 1][..i] == patients[..i];
      }
      assert patients[..|patients|] == patients;
    }

    /** `loadPatientsFromDB`: empty the roster and refill it with the store's records. */
    method Load(store: PatientStore)
      requires store.Valid()
      modifies this
      ensures ListsRecords(patients, store.records)
      ensures (forall k :: k in store.records ==> PatientOk(store.records[k])) ==> Valid()
      ensures catalog == old(catalog)
    {
      var loaded := store.GetAll();
      patients := [];
      patients := patients + loaded;
      assert patients == loaded;
    }
  }

  /**
    Saving and loading again, with no other write in between, restores a
    well-formed roster with the same patients and leaves the catalog alone.
   */
  method SaveThenLoad(r: Registry, store: PatientStore)
    requires r.Valid() && UniqueKeys(r.patients)
    modifies r, store
    ensures r.Valid()
    ensures store.records == StoreOf(old(r.patients))
    ensures r.catalog == old(r.catalog)
    ensures |r.patients| == |old(r.patients)|
    ensures forall p :: p in r.patients <==> p in old(r.patients)
  {
    ghost var before := r.patients;
    r.Save(store);
    r.Load(store);
    SaveLoadRoundTrip(before, r.patients);
    SaveLoadKeepsRecordsOk(before, r.patients);
  }
}
