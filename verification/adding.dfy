/**
  The data path of `addPatient`: which branch a submitted form takes, and the
  roster it leaves behind. An existing patient (same name, any case) gets the
  new checkup in front of its history; an unknown name becomes a new patient
  at the end of the roster; a form missing a required field changes nothing.
 */
module Adding {
  import opened Wrappers
  import opened Text
  import opened Sequences
  import opened Records

  /** The add-patient form. `age` is None while its field is empty. */
  datatype PatientForm = PatientForm(
    name: string, gender: string, age: Option<int>, nationality: string,
    lastCheckup: string, notes: string, medicines: seq<Medicine>)

  /** The branch `addPatient` takes; the two failures are the two alerts it shows. */
  datatype AddOutcome = MissingNameOrDate | MissingDetails | Updated(index: nat) | Added

  /** The name as `addPatient` reads it: trimmed. */
  function FormName(f: PatientForm): string {
    Trim(f.name)
  }

  function NewCheckup(f: PatientForm): Checkup {
    Checkup(f.lastCheckup, f.notes, f.medicines)
  }

  /** Gender, age and nationality are all filled in. */
  predicate HasDetails(f: PatientForm) {
    f.gender != "" && f.age.Some? && f.nationality != ""
  }

  /** `patients.find(p => p.name.toLowerCase() === name.toLowerCase())`, as a position. */
  function FindByName(ps: seq<Patient>, name: string): (r: Option<nat>)
    ensures r.Some? ==> r.value < |ps| && EqualsIgnoreCase(ps[r.value].name, name)
    ensures r.Some? ==> forall j :: 0 <= j < r.value ==> !EqualsIgnoreCase(ps[j].name, name)
    ensures r.None? <==> forall j :: 0 <= j < |ps| ==> !EqualsIgnoreCase(ps[j].name, name)
  {
    FindIndex(ps, (p: Patient) => EqualsIgnoreCase(p.name, name))
  }

  function AddOutcomeOf(ps: seq<Patient>, f: PatientForm): (o: AddOutcome)
    ensures o.MissingNameOrDate? <==> FormName(f) == "" || f.lastCheckup == ""
    ensures o.Updated? ==> o.index < |ps| && EqualsIgnoreCase(ps[o.index].name, FormName(f))
    ensures o.Updated? ==> forall j :: 0 <= j < o.index ==> !EqualsIgnoreCase(ps[j].name, FormName(f))
    ensures o.Added? || o.MissingDetails? <==>
      && FormName(f) != "" && f.lastCheckup != ""
      && forall j :: 0 <= j < |ps| ==> !EqualsIgnoreCase(ps[j].name, FormName(f))
    ensures o.Added? ==> HasDetails(f)
    ensures o.MissingDetails? ==> !HasDetails(f)
  {
    var name := FormName(f);
    if name == "" || f.lastCheckup == "" then MissingNameOrDate
    else match FindByName(ps, name)
      case Some(k) => Updated(k)
      case None => if HasDetails(f) then Added else MissingDetails
  }

  /** The roster after `addPatient` has run on form `f`. */
  function AfterAdd(ps: seq<Patient>, f: PatientForm): (r: seq<Patient>)
    ensures |r| == if AddOutcomeOf(ps, f).Added? then |ps| + 1 else |ps|
  {
    match AddOutcomeOf(ps, f)
    case Updated(k) => ps[k := ps[k].(checkups := [NewCheckup(f)] + ps[k].checkups)]
    case Added =>
      ps + [Patient(FormName(f), f.gender, f.age.value, f.nationality, [NewCheckup(f)])]
    case _ => ps
  }

  /** Without a name or a checkup date nothing changes. */
  lemma AddWithoutNameOrDate(ps: seq<Patient>, f: PatientForm)
    requires FormName(f) == "" || f.lastCheckup == ""
    ensures AddOutcomeOf(ps, f) == MissingNameOrDate
    ensures AfterAdd(ps, f) == ps
  {
  }

  /**
    A name already on the roster (in any case) adds a checkup to the first such
    patient: the roster keeps its size, that patient gains exactly the new
    checkup at the front and keeps its stored name and details, and every other
    patient is untouched. Gender, age and nationality are not consulted.
   */
  lemma AddToExistingPatient(ps: seq<Patient>, f: PatientForm, k: nat)
    requires FormName(f) != "" && f.lastCheckup != ""
    requires k < |ps| && EqualsIgnoreCase(ps[k].name, FormName(f))
    requires forall j :: 0 <= j < k ==> !EqualsIgnoreCase(ps[j].name, FormName(f))
    ensures AddOutcomeOf(ps, f) == Updated(k)
    ensures var r := AfterAdd(ps, f);
      && |r| == |ps|
      && r[k].checkups == [NewCheckup(f)] + ps[k].checkups
      && r[k].name == ps[k].name && r[k].gender == ps[k].gender
      && r[k].age == ps[k].age && r[k].nationality == ps[k].nationality
      && forall j :: 0 <= j < |ps| && j != k ==> r[j] == ps[j]
  {
  }

  /**
    An unknown name with gender, age and nationality filled in appends exactly
    one patient, with exactly one checkup; earlier entries keep their places.
   */
  lemma AddNewPatient(ps: seq<Patient>, f: PatientForm)
    requires FormName(f) != "" && f.lastCheckup != "" && HasDetails(f)
    requires forall j :: 0 <= j < |ps| ==> !EqualsIgnoreCase(ps[j].name, FormName(f))
    ensures AddOutcomeOf(ps, f) == Added
    ensures var r := AfterAdd(ps, f);
      && |r| == |ps| + 1 && r[..|ps|] == ps
      && r[|ps|].name == FormName(f) && r[|ps|].gender == f.gender
      && r[|ps|].age == f.age.value && r[|ps|].nationality == f.nationality
      && r[|ps|].checkups == [NewCheckup(f)]
  {
    assert AfterAdd(ps, f)[..|ps|] == ps;
  }

  /** An unknown name with a detail missing changes nothing. */
  lemma AddIncompleteNewPatient(ps: seq<Patient>, f: PatientForm)
    requires FormName(f) != "" && f.lastCheckup != "" && !HasDetails(f)
    requires forall j :: 0 <= j < |ps| ==> !EqualsIgnoreCase(ps[j].name, FormName(f))
    ensures AddOutcomeOf(ps, f) == MissingDetails
    ensures AfterAdd(ps, f) == ps
  {
  }

  /** A dated checkup put in front of one patient's history keeps every record well formed. */
  lemma PrependKeepsRecordsOk(ps: seq<Patient>, k: nat, c: Checkup)
    requires AllOk(ps) && k < |ps| && c.date != ""
    ensures AllOk(ps[k := ps[k].(checkups := [c] + ps[k].checkups)])
  {
    var r := ps[k := ps[k].(checkups := [c] + ps[k].checkups)];
    assert PatientOk(ps[k]);
    assert forall d :: d in r[k].checkups ==> d == c || d in ps[k].checkups;
  }

  /** Appending a well-formed record keeps every record well formed. */
  lemma AppendKeepsRecordsOk(ps: seq<Patient>, p: Patient)
    requires AllOk(ps) && PatientOk(p)
    ensures AllOk(ps + [p])
  {
  }

  /** Adding keeps every record well formed, so `checkups[0]` stays defined. */
  lemma AddKeepsRecordsOk(ps: seq<Patient>, f: PatientForm)
    requires AllOk(ps)
    ensures AllOk(AfterAdd(ps, f))
  {
    match AddOutcomeOf(ps, f)
    case Updated(k) =>
      PrependKeepsRecordsOk(ps, k, NewCheckup(f));
    case Added =>
      AppendKeepsRecordsOk(ps, Patient(FormName(f), f.gender, f.age.value, f.nationality, [NewCheckup(f)]));
    case _ =>
  }

  /** Appending a patient whose name no one has, up to case, keeps the names distinct. */
  lemma AppendKeepsNamesDistinct(ps: seq<Patient>, p: Patient)
    requires DistinctNames(ps)
    requires forall j :: 0 <= j < |ps| ==> !EqualsIgnoreCase(ps[j].name, p.name)
    ensures DistinctNames(ps + [p])
  {
  }

  /** Adding never creates a second patient with the same name in another case. */
  lemma AddKeepsNamesDistinct(ps: seq<Patient>, f: PatientForm)
    requires DistinctNames(ps)
    ensures DistinctNames(AfterAdd(ps, f))
  {
    match AddOutcomeOf(ps, f)
    case Updated(k) =>
      var r := AfterAdd(ps, f);
      assert forall i :: 0 <= i < |r| ==> r[i].name == ps[i].name;
    case Added =>
      AppendKeepsNamesDistinct(ps, Patient(FormName(f), f.gender, f.age.value, f.nationality, [NewCheckup(f)]));
    case _ =>
  }

  /**
    Once a form has gone through, the same name in any case finds the patient
    it landed on, so submitting it again adds a checkup rather than a duplicate.
   */
  lemma AddThenSameNameUpdates(ps: seq<Patient>, f: PatientForm, g: PatientForm)
    requires AddOutcomeOf(ps, f).Added? || AddOutcomeOf(ps, f).Updated?
    requires EqualsIgnoreCase(FormName(g), FormName(f)) && g.lastCheckup != ""
    ensures AddOutcomeOf(AfterAdd(ps, f), g) ==
      Updated(if AddOutcomeOf(ps, f).Updated? then AddOutcomeOf(ps, f).index else |ps|)
  {
    var r := AfterAdd(ps, f);
    assert |FormName(g)| == |Lower(FormName(f))|;
    match AddOutcomeOf(ps, f)
    case Updated(k) =>
      forall j | 0 <= j < k ensures !EqualsIgnoreCase(r[j].name, FormName(g)) {
        assert r[j].name == ps[j].name;
      }
      assert r[k].name == ps[k].name;
      AddToExistingPatient(r, g, k);
    case Added =>
      forall j | 0 <= j < |ps| ensures !EqualsIgnoreCase(r[j].name, FormName(g)) {
        assert r[j] == ps[j];
      }
      assert r[|ps|].name == FormName(f);
      AddToExistingPatient(r, g, |ps|);
  }

  /**
    Once a form has gone through, selecting its checkup date on the patient it
    landed on shows the submitted notes and medicines.
   */
  lemma AddThenSelectDate(ps: seq<Patient>, f: PatientForm)
    requires AddOutcomeOf(ps, f).Added? || AddOutcomeOf(ps, f).Updated?
    ensures var k := if AddOutcomeOf(ps, f).Updated? then AddOutcomeOf(ps, f).index else |ps|;
      && k < |AfterAdd(ps, f)|
      && CheckupNotes(AfterAdd(ps, f), k, f.lastCheckup) == f.notes
      && MedicineItems(AfterAdd(ps, f), k, f.lastCheckup) ==
         if f.medicines == [] then [NoMedicines] else MedicineNames(f.medicines)
  {
    var r := AfterAdd(ps, f);
    match AddOutcomeOf(ps, f)
    case Updated(k) =>
      assert r[k].checkups[0] == NewCheckup(f);
      FrontCheckupSelected(r, k);
    case Added =>
      assert r[|ps|].checkups == [NewCheckup(f)];
      FrontCheckupSelected(r, |ps|);
  }
}
