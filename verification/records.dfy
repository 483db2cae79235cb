/**
  The registry's records, the demonstration roster the page starts with, and
  the per-patient checkup lookup behind the date selector: the notes paragraph
  and the medicines list shown for a selected date.
 */
module Records {
  import opened Wrappers
  import opened Text
  import opened Sequences

  datatype Medicine = Medicine(name: string)

  datatype Checkup = Checkup(date: string, notes: string, medicines: seq<Medicine>)

  /**
    A new visit is put at the front of `checkups`, so `checkups[0]` is the most
    recently added checkup; the seed's dates are not in any order.
   */
  datatype Patient = Patient(name: string, gender: string, age: int, nationality: string, checkups: seq<Checkup>)

  /**
    What every record the page creates satisfies: a name, at least one checkup
    (so `checkups[0]` exists) and a date on every checkup.
   */
  predicate PatientOk(p: Patient) {
    && p.name != ""
    && |p.checkups| >= 1
    && forall c :: c in p.checkups ==> c.date != ""
  }

  predicate AllOk(ps: seq<Patient>) {
    forall i :: 0 <= i < |ps| ==> PatientOk(ps[i])
  }

  /** No two patients share a name, compared case-insensitively. */
  predicate DistinctNames(ps: seq<Patient>) {
    forall i, j :: 0 <= i < j < |ps| ==> !EqualsIgnoreCase(ps[i].name, ps[j].name)
  }

  /** The four patients the page holds before the store is read. */
  const Seed: seq<Patient> := [
    Patient("John Doe", "Male", 45, "American", [
      Checkup("2022-01-15", "3bass", [Medicine("Aspirin")]),
      Checkup("2022-02-15", "Follow-up", [Medicine("Ibuprofen")])]),
    Patient("Jane Smith", "Female", 30, "British", [
      Checkup("2022-02-20", "Routine check", [Medicine("Ibuprofen")])]),
    Patient("Carlos Mendez", "Male", 50, "Mexican", [
      Checkup("2022-03-10", "Initial visit", [Medicine("Metformin")])]),
    Patient("Aisha Khan", "Female", 25, "Pakistani", [
      Checkup("2022-04-05", "Follow-up", [Medicine("Paracetamol")])])
  ]

  lemma SeedOk()
    ensures AllOk(Seed)
  {
  }

  /** Names of different lengths, or with different first letters up to case, differ up to case. */
  lemma NamesDiffer(a: string, b: string)
    requires |a| != |b| || (a != [] && b != [] && LowerChar(a[0]) != LowerChar(b[0]))
    ensures !EqualsIgnoreCase(a, b)
  {
    EqualsIgnoreCaseChars(a, b);
  }

  /** The four seed names, read off the records. */
  lemma SeedNames()
    ensures |Seed| == 4
    ensures Seed[0].name == "John Doe" && Seed[1].name == "Jane Smith"
    ensures Seed[2].name == "Carlos Mendez" && Seed[3].name == "Aisha Khan"
  {
  }

  /** The four seed names differ pairwise, up to case. */
  lemma SeedNamesDiffer()
    ensures !EqualsIgnoreCase("John Doe", "Jane Smith") && !EqualsIgnoreCase("John Doe", "Carlos Mendez")
    ensures !EqualsIgnoreCase("John Doe", "Aisha Khan") && !EqualsIgnoreCase("Jane Smith", "Carlos Mendez")
    ensures !EqualsIgnoreCase("Jane Smith", "Aisha Khan") && !EqualsIgnoreCase("Carlos Mendez", "Aisha Khan")
  {
    NamesDiffer("John Doe", "Jane Smith");
    NamesDiffer("John Doe", "Carlos Mendez");
    NamesDiffer("John Doe", "Aisha Khan");
    NamesDiffer("Jane Smith", "Carlos Mendez");
    NamesDiffer("Jane Smith", "Aisha Khan");
    NamesDiffer("Carlos Mendez", "Aisha Khan");
  }

  /** No two of the four seed patients share a name, up to case. */
  lemma SeedNamesDistinct()
    ensures DistinctNames(Seed)
  {
    SeedNames();
    SeedNamesDiffer();
  }

  const NoNotes: string := "No notes available."
  const NoMedicines: string := "No medicines recorded for this date."
  const NoCheckup: string := "No checkup selected."

  /** `k` is the first position in `cs` holding a checkup on `date`. */
  predicate FirstOnDate(cs: seq<Checkup>, k: nat, date: string) {
    k < |cs| && cs[k].date == date && forall j :: 0 <= j < k ==> cs[j].date != date
  }

  /** `checkups.find(c => c.date === date)`, as a position. */
  function FindCheckup(p: Patient, date: string): (r: Option<nat>)
    ensures r.Some? ==> FirstOnDate(p.checkups, r.value, date)
    ensures r.None? <==> forall c :: c in p.checkups ==> c.date != date
  {
    FindIndex(p.checkups, (c: Checkup) => c.date == date)
  }

  /** The text of the notes paragraph once `date` is selected for patient `index`. */
  function CheckupNotes(ps: seq<Patient>, index: nat, date: string): (text: string)
    requires index < |ps|
    ensures (forall c :: c in ps[index].checkups ==> c.date != date) ==> text == NoNotes
    ensures forall k: nat :: FirstOnDate(ps[index].checkups, k, date) ==> text == ps[index].checkups[k].notes
  {
    match FindCheckup(ps[index], date)
    case Some(k) => ps[index].checkups[k].notes
    case None => NoNotes
  }

  function MedicineNames(ms: seq<Medicine>): (names: seq<string>)
    ensures |names| == |ms|
    ensures forall i :: 0 <= i < |ms| ==> names[i] == ms[i].name
  {
    if ms == [] then [] else [ms[0].name] + MedicineNames(ms[1..])
  }

  /** The items of the medicines list once `date` is selected for patient `index`. */
  function MedicineItems(ps: seq<Patient>, index: nat, date: string): (items: seq<string>)
    requires index < |ps|
    ensures (forall c :: c in ps[index].checkups ==> c.date != date) ==> items == [NoCheckup]
    ensures forall k: nat :: FirstOnDate(ps[index].checkups, k, date) ==>
      items == if ps[index].checkups[k].medicines == [] then [NoMedicines]
               else MedicineNames(ps[index].checkups[k].medicines)
  {
    match FindCheckup(ps[index], date)
    case Some(k) =>
      var ms := ps[index].checkups[k].medicines;
      if ms == [] then [NoMedicines] else MedicineNames(ms)
    case None => [NoCheckup]
  }

  /**
    The selector's first option, "Select a date", has the empty value; no
    well-formed record has a checkup on that date, so both placeholders show.
   */
  lemma SelectPromptShowsPlaceholders(ps: seq<Patient>, index: nat)
    requires AllOk(ps) && index < |ps|
    ensures CheckupNotes(ps, index, "") == NoNotes
    ensures MedicineItems(ps, index, "") == [NoCheckup]
  {
  }

  /** The front checkup is always what its own date selects. */
  lemma {:induction false} FrontCheckupSelected(ps: seq<Patient>, index: nat)
    requires index < |ps| && |ps[index].checkups| >= 1
    ensures CheckupNotes(ps, index, ps[index].checkups[0].date) == ps[index].checkups[0].notes
    ensures MedicineItems(ps, index, ps[index].checkups[0].date) ==
      if ps[index].checkups[0].medicines == [] then [NoMedicines]
      else MedicineNames(ps[index].checkups[0].medicines)
  {
    var d := ps[index].checkups[0].date;
    assert FindCheckup(ps[index], d) == Some(0);
  }
}
