/**
  The data path of `addMedicine`: the medicine-search input is split on commas
  and each part trimmed; every non-empty part that the catalog of known
  medicines does not yet hold (compared case-insensitively) is appended to the
  catalog and, when a patient is selected, to the medicines of that patient's
  front checkup, `checkups[0]`, whatever its date. Parts already known change nothing.
 */
module Medicines {
  import opened Wrappers
  import opened Text
  import opened Records

  /** Some catalog entry equals `name` up to letter case. */
  predicate InCatalog(catalog: seq<string>, name: string) {
    exists i :: 0 <= i < |catalog| && EqualsIgnoreCase(catalog[i], name)
  }

  /** No two catalog entries are equal up to letter case. */
  predicate CatalogDistinct(catalog: seq<string>) {
    forall i, j :: 0 <= i < j < |catalog| ==> !EqualsIgnoreCase(catalog[i], catalog[j])
  }

  /** A token as `addMedicine` sees it: no comma, and no white space at either end. */
  predicate TokenOk(tok: string) {
    ',' !in tok && NoSpaceEnds(tok)
  }

  /** `tok` is `part` with white space, and only white space, cut from its ends. */
  predicate CutFrom(part: string, tok: string) {
    exists a: nat :: a <= |part| && TrimmedAt(part, tok, a)
  }

  /** Trimming a comma-free part gives a token, cut from that part. */
  lemma TrimmedTokenOk(part: string)
    requires ',' !in part
    ensures TokenOk(Trim(part)) && CutFrom(part, Trim(part))
  {
    if ',' in Trim(part) {
      TrimContained(part);
      ContainedCharOccurs(part, Trim(part), ',');
    }
  }

  /** `input.split(",").map(med => med.trim())`. */
  function MedicineTokens(input: string): (toks: seq<string>)
    ensures |toks| == |Split(input, ',')| >= 1
    ensures Join(Split(input, ','), ',') == input
    ensures forall i :: 0 <= i < |toks| ==> TokenOk(toks[i]) && CutFrom(Split(input, ',')[i], toks[i])
  {
    var parts := Split(input, ',');
    JoinSplit(input, ',');
    var toks := seq(|parts|, i requires 0 <= i < |parts| => Trim(parts[i]));
    forall i | 0 <= i < |toks| ensures TokenOk(toks[i]) && CutFrom(parts[i], toks[i]) {
      TrimmedTokenOk(parts[i]);
    }
    toks
  }

  /** Each token is exactly its comma-separated part trimmed: the cut fixes it. */
  lemma TokensAreTrimmedParts(input: string, i: nat)
    requires i < |MedicineTokens(input)|
    ensures MedicineTokens(input)[i] == Trim(Split(input, ',')[i])
  {
    var part, tok := Split(input, ',')[i], MedicineTokens(input)[i];
    var a: nat :| a <= |part| && TrimmedAt(part, tok, a);
    var b: nat :| TrimmedAt(part, Trim(part), b);
    TrimUnique(part, tok, a, Trim(part), b);
  }

  /** `names.map(name => ({ name }))`. */
  function AsMedicines(names: seq<string>): seq<Medicine> {
    seq(|names|, i requires 0 <= i < |names| => Medicine(names[i]))
  }

  lemma AsMedicinesNames(names: seq<string>)
    ensures MedicineNames(AsMedicines(names)) == names
  {
  }

  /** `p.checkups[0].medicines.push({ name: med })`. */
  function AddToFrontCheckup(p: Patient, med: string): (q: Patient)
    requires |p.checkups| >= 1
    ensures q.name == p.name && q.gender == p.gender && q.age == p.age && q.nationality == p.nationality
    ensures |q.checkups| == |p.checkups| && q.checkups[1..] == p.checkups[1..]
    ensures q.checkups[0].date == p.checkups[0].date && q.checkups[0].notes == p.checkups[0].notes
    ensures q.checkups[0].medicines == p.checkups[0].medicines + [Medicine(med)]
  {
    var c := p.checkups[0];
    p.(checkups := p.checkups[0 := c.(medicines := c.medicines + [Medicine(med)])])
  }

  /** `target` names a patient on the roster that has a checkup to add to. */
  predicate CanTarget(ps: seq<Patient>, target: Option<nat>) {
    target.Some? ==> target.value < |ps| && |ps[target.value].checkups| >= 1
  }

  /** `q` is `p` with, at most, different medicine lists. */
  predicate SameExceptMedicines(p: Patient, q: Patient) {
    && p.name == q.name && p.gender == q.gender && p.age == q.age && p.nationality == q.nationality
    && |p.checkups| == |q.checkups|
    && forall k :: 0 <= k < |p.checkups| ==>
         p.checkups[k].date == q.checkups[k].date && p.checkups[k].notes == q.checkups[k].notes
  }

  predicate SameShape(ps: seq<Patient>, qs: seq<Patient>) {
    |ps| == |qs| && forall i :: 0 <= i < |ps| ==> SameExceptMedicines(ps[i], qs[i])
  }

  lemma SameShapeTrans(ps: seq<Patient>, qs: seq<Patient>, rs: seq<Patient>)
    requires SameShape(ps, qs) && SameShape(qs, rs)
    ensures SameShape(ps, rs)
  {
  }

  /** A roster that differs only in medicines keeps every invariant the roster has. */
  lemma SameShapeKeepsInvariants(ps: seq<Patient>, qs: seq<Patient>, target: Option<nat>)
    requires SameShape(ps, qs)
    ensures CanTarget(ps, target) ==> CanTarget(qs, target)
    ensures AllOk(ps) ==> AllOk(qs)
    ensures DistinctNames(ps) ==> DistinctNames(qs)
  {
    if AllOk(ps) {
      forall i | 0 <= i < |qs| ensures PatientOk(qs[i]) {
        assert PatientOk(ps[i]);
        forall c | c in qs[i].checkups ensures c.date != "" {
          var k :| 0 <= k < |qs[i].checkups| && qs[i].checkups[k] == c;
          assert ps[i].checkups[k] in ps[i].checkups;
        }
      }
    }
  }

  /** The catalog and the roster as `addMedicine` updates them. */
  datatype MedicineState = MedicineState(catalog: seq<string>, patients: seq<Patient>)

  /** One pass of the `forEach` body for token `tok`. */
  function AbsorbToken(st: MedicineState, tok: string, target: Option<nat>): (r: MedicineState)
    requires CanTarget(st.patients, target)
    ensures r == st <==> tok == "" || InCatalog(st.catalog, tok)
    ensures r != st ==> r.catalog == st.catalog + [tok]
    ensures SameShape(st.patients, r.patients)
  {
    if tok == "" || InCatalog(st.catalog, tok) then st
    else
      var patients := match target
        case None => st.patients
        case Some(t) => st.patients[t := AddToFrontCheckup(st.patients[t], tok)];
      MedicineState(st.catalog + [tok], patients)
  }

  /** The whole `forEach` over `toks`, taken in order. */
  function AbsorbAll(st: MedicineState, toks: seq<string>, target: Option<nat>): (r: MedicineState)
    requires CanTarget(st.patients, target)
    ensures SameShape(st.patients, r.patients)
    ensures |st.catalog| <= |r.catalog| && r.catalog[..|st.catalog|] == st.catalog
    decreases |toks|
  {
    if toks == [] then st
    else
      var mid := AbsorbAll(st, toks[..|toks| - 1], target);
      SameShapeKeepsInvariants(st.patients, mid.patients, target);
      var r := AbsorbToken(mid, toks[|toks| - 1], target);
      SameShapeTrans(st.patients, mid.patients, r.patients);
      r
  }

  /** Taking one more token of the input is one more pass of the loop body. */
  lemma AbsorbAllStep(st: MedicineState, toks: seq<string>, i: nat, target: Option<nat>)
    requires CanTarget(st.patients, target)
    requires i < |toks|
    ensures CanTarget(AbsorbAll(st, toks[..i], target).patients, target)
    ensures AbsorbAll(st, toks[..i + 1], target) ==
      AbsorbToken(AbsorbAll(st, toks[..i], target), toks[i], target)
  {
    var mid := AbsorbAll(st, toks[..i], target);
    SameShapeKeepsInvariants(st.patients, mid.patients, target);
    assert toks[..i + 1][..i] == toks[..i];
  }

  lemma AsMedicinesAppend(a: seq<string>, b: seq<string>)
    ensures AsMedicines(a + b) == AsMedicines(a) + AsMedicines(b)
  {
  }

  /** `after` is `before` with entries appended at its end. */
  predicate Extends(before: seq<string>, after: seq<string>) {
    |before| <= |after| && after[..|before|] == before
  }

  lemma ExtendsTrans(a: seq<string>, b: seq<string>, c: seq<string>)
    requires Extends(a, b) && Extends(b, c)
    ensures Extends(a, c)
    ensures c[|a|..] == b[|a|..] + c[|b|..]
  {
    assert c[..|a|] == b[..|a|];
  }

  /**
    Patient `t`'s front checkup `checkups[0]` gained the medicines named `added`, in
    order; its other checkups and every other patient stayed as they were.
   */
  predicate FrontGrowsBy(before: seq<Patient>, after: seq<Patient>, t: nat, added: seq<string>) {
    && t < |before| && |after| == |before|
    && |before[t].checkups| >= 1 && |after[t].checkups| >= 1
    && after[t].checkups[0].medicines == before[t].checkups[0].medicines + AsMedicines(added)
    && after[t].checkups[1..] == before[t].checkups[1..]
    && forall j :: 0 <= j < |before| && j != t ==> after[j] == before[j]
  }

  lemma FrontGrowsByTrans(a: seq<Patient>, b: seq<Patient>, c: seq<Patient>, t: nat, x: seq<string>, y: seq<string>)
    requires FrontGrowsBy(a, b, t, x) && FrontGrowsBy(b, c, t, y)
    ensures FrontGrowsBy(a, c, t, x + y)
  {
    AsMedicinesAppend(x, y);
  }

  /**
    From `before` to `after` the catalog only grew at its end, and the selected
    patient's front checkup `checkups[0]` gained exactly the new catalog entries, in
    order; its other checkups and every other patient stayed as they were.
    With no patient selected the roster did not change.
   */
  predicate OnlyFrontCheckupGrows(before: MedicineState, after: MedicineState, target: Option<nat>) {
    && Extends(before.catalog, after.catalog)
    && match target
      case None => after.patients == before.patients
      case Some(t) => FrontGrowsBy(before.patients, after.patients, t, after.catalog[|before.catalog|..])
  }

  lemma OnlyFrontCheckupGrowsTrans(a: MedicineState, b: MedicineState, c: MedicineState, target: Option<nat>)
    requires OnlyFrontCheckupGrows(a, b, target) && OnlyFrontCheckupGrows(b, c, target)
    ensures OnlyFrontCheckupGrows(a, c, target)
  {
    ExtendsTrans(a.catalog, b.catalog, c.catalog);
    if target.Some? {
      FrontGrowsByTrans(a.patients, b.patients, c.patients, target.value,
        b.catalog[|a.catalog|..], c.catalog[|b.catalog|..]);
    }
  }

  /** What one token does to the selected patient and to everyone else. */
  lemma AbsorbTokenTarget(st: MedicineState, tok: string, target: Option<nat>)
    requires CanTarget(st.patients, target)
    ensures OnlyFrontCheckupGrows(st, AbsorbToken(st, tok, target), target)
  {
    var r := AbsorbToken(st, tok, target);
    if r == st {
      assert r.catalog[|st.catalog|..] == [];
    } else {
      assert r.catalog[|st.catalog|..] == [tok];
    }
  }

  /** The whole input, token by token, grows only the selected patient's front checkup. */
  lemma {:induction false} AbsorbAllTarget(st: MedicineState, toks: seq<string>, target: Option<nat>)
    requires CanTarget(st.patients, target)
    ensures OnlyFrontCheckupGrows(st, AbsorbAll(st, toks, target), target)
    decreases |toks|
  {
    if toks == [] {
      assert st.catalog[|st.catalog|..] == [];
      assert st.catalog[..|st.catalog|] == st.catalog;
    } else {
      var mid := AbsorbAll(st, toks[..|toks| - 1], target);
      AbsorbAllTarget(st, toks[..|toks| - 1], target);
      SameShapeKeepsInvariants(st.patients, mid.patients, target);
      AbsorbTokenTarget(mid, toks[|toks| - 1], target);
      OnlyFrontCheckupGrowsTrans(st, mid, AbsorbToken(mid, toks[|toks| - 1], target), target);
    }
  }

  /** A catalog without case-insensitive duplicates stays without them. */
  lemma {:induction false} AbsorbAllKeepsCatalogDistinct(st: MedicineState, toks: seq<string>, target: Option<nat>)
    requires CanTarget(st.patients, target)
    requires CatalogDistinct(st.catalog)
    ensures CatalogDistinct(AbsorbAll(st, toks, target).catalog)
    decreases |toks|
  {
    if toks != [] {
      var mid := AbsorbAll(st, toks[..|toks| - 1], target);
      AbsorbAllKeepsCatalogDistinct(st, toks[..|toks| - 1], target);
      SameShapeKeepsInvariants(st.patients, mid.patients, target);
      var tok := toks[|toks| - 1];
      var r := AbsorbToken(mid, tok, target);
      if r != mid {
        forall i, j | 0 <= i < j < |r.catalog| ensures !EqualsIgnoreCase(r.catalog[i], r.catalog[j]) {
          if j == |mid.catalog| {
            assert r.catalog[j] == tok;
            assert r.catalog[i] == mid.catalog[i];
          }
        }
      }
    }
  }

  /** Afterwards every non-empty token is known to the catalog. */
  lemma {:induction false} AbsorbAllCatalogsEveryToken(st: MedicineState, toks: seq<string>, target: Option<nat>)
    requires CanTarget(st.patients, target)
    ensures forall i :: 0 <= i < |toks| && toks[i] != "" ==> InCatalog(AbsorbAll(st, toks, target).catalog, toks[i])
    decreases |toks|
  {
    if toks != [] {
      var front := toks[..|toks| - 1];
      var mid := AbsorbAll(st, front, target);
      AbsorbAllCatalogsEveryToken(st, front, target);
      SameShapeKeepsInvariants(st.patients, mid.patients, target);
      var tok := toks[|toks| - 1];
      var r := AbsorbToken(mid, tok, target);
      assert r.catalog[..|mid.catalog|] == mid.catalog;
      forall i | 0 <= i < |toks| && toks[i] != "" ensures InCatalog(r.catalog, toks[i]) {
        if i < |toks| - 1 {
          assert front[i] == toks[i];
          var k :| 0 <= k < |mid.catalog| && EqualsIgnoreCase(mid.catalog[k], toks[i]);
          assert r.catalog[k] == mid.catalog[k];
        } else if r != mid {
          assert r.catalog[|mid.catalog|] == tok;
        }
      }
    }
  }

  /** `name` is a non-empty token of `toks` that `catalog` did not know. */
  predicate NewEntry(catalog: seq<string>, toks: seq<string>, name: string) {
    name in toks && name != "" && !InCatalog(catalog, name)
  }

  /** Every entry the catalog gains is a non-empty token that it did not know before. */
  lemma {:induction false} AbsorbAllAddsOnlyNewTokens(st: MedicineState, toks: seq<string>, target: Option<nat>)
    requires CanTarget(st.patients, target)
    ensures forall i :: |st.catalog| <= i < |AbsorbAll(st, toks, target).catalog| ==>
      NewEntry(st.catalog, toks, AbsorbAll(st, toks, target).catalog[i])
    decreases |toks|
  {
    if toks != [] {
      var front := toks[..|toks| - 1];
      var mid := AbsorbAll(st, front, target);
      AbsorbAllAddsOnlyNewTokens(st, front, target);
      SameShapeKeepsInvariants(st.patients, mid.patients, target);
      var tok := toks[|toks| - 1];
      var r := AbsorbToken(mid, tok, target);
      forall i | |st.catalog| <= i < |r.catalog|
        ensures NewEntry(st.catalog, toks, r.catalog[i])
      {
        if i < |mid.catalog| {
          assert r.catalog[..|mid.catalog|] == mid.catalog;
          assert r.catalog[i] == mid.catalog[i];
          assert NewEntry(st.catalog, front, mid.catalog[i]);
          var k :| 0 <= k < |front| && front[k] == mid.catalog[i];
          assert toks[k] == front[k];
        } else {
          assert r != mid && r.catalog[i] == tok && !InCatalog(mid.catalog, tok);
          forall k | 0 <= k < |st.catalog| ensures !EqualsIgnoreCase(st.catalog[k], tok) {
            assert mid.catalog[k] == st.catalog[k];
          }
        }
      }
    }
  }

  /**
    After the medicines are added, selecting the date of the patient's front checkup
    date lists its earlier medicines followed by the newly catalogued ones.
   */
  lemma AddMedicinesThenSelectFront(st: MedicineState, toks: seq<string>, t: nat)
    requires CanTarget(st.patients, Some(t))
    ensures var r := AbsorbAll(st, toks, Some(t));
      var before := MedicineNames(st.patients[t].checkups[0].medicines);
      var added := r.catalog[|st.catalog|..];
      MedicineItems(r.patients, t, st.patients[t].checkups[0].date) ==
        if before + added == [] then [NoMedicines] else before + added
  {
    var r := AbsorbAll(st, toks, Some(t));
    AbsorbAllTarget(st, toks, Some(t));
    assert r.patients[t].checkups[0].date == st.patients[t].checkups[0].date;
    FrontCheckupSelected(r.patients, t);
    var ms := st.patients[t].checkups[0].medicines;
    var added := AsMedicines(r.catalog[|st.catalog|..]);
    AsMedicinesNames(r.catalog[|st.catalog|..]);
    assert MedicineNames(ms + added) == MedicineNames(ms) + MedicineNames(added);
  }
}
