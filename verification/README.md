# Patient registry — a verified Dafny model

This project models the in-memory patient registry of the single-page clinic
application `drScript.js`. The page keeps a roster `patients` of records. Each
record has a name, gender, age, nationality and a checkup history; a new
visit is put at the front, so `checkups[0]` is the most recently added
checkup, not necessarily the one with the latest date. Each checkup holds a date, notes and the medicines prescribed. The page
also keeps a catalog of known medicines, shown as the options of a medicine
selector. Handlers on the page:

- add a patient, or add a checkup to an existing one;
- search the roster by name;
- delete a patient by position;
- show the notes and medicines of a selected checkup date;
- add comma-separated medicines to the catalog and to the selected patient;
- filter the medicine selector;
- write the roster through to an IndexedDB object store keyed by `name`, and
  read it back.

Layout, one module per file:

- `text.dfy` (`Text`): the string operations the handlers use, stated on
  `seq<char>`. These are `toLowerCase`, `includes`, `trim` and `split` on one
  character, plus `join`, the inverse of `split`.
- `sequences.dfy` (`Sequences`): `find`/`findIndex` as a first-match position,
  and `splice(i, 1)`.
- `records.dfy` (`Records`): the record types, the four demonstration
  patients, the well-formedness invariant (a name, at least one checkup, a
  date on every checkup) and the checkup lookup behind the date selector.
- `adding.dfy` (`Adding`): which branch `addPatient` takes and the roster it
  leaves behind.
- `searching.dfy` (`Searching`): the name filter.
- `medicines.dfy` (`Medicines`): the tokenising, de-duplicating, appending
  pass of `addMedicine`.
- `persistence.dfy` (`Persistence`): the object store as a map from key to
  record, and what a save followed by a load gives back.
- `registry.dfy` (`PatientRegistry`): the page's mutable state. `Registry`
  holds the roster and the catalog. `PatientStore` holds the store's records.
  Their methods update these fields step by step. Each method is proved
  against the specification functions of the modules above. The methods
  ending in `AndSave` are whole handlers: each composes its change with the
  save that follows it in the source.

## Model

| member | source | states |
|---|---|---|
| Text.Lower | drScript.js:133 | lower-casing keeps the length of the string |
| Text.LowerChars | drScript.js:161 | every character is folded in place, so no upper-case ASCII letter is left |
| Text.EqualsIgnoreCase | drScript.js:161 | defined as equality after lower-casing both sides |
| Text.EqualsIgnoreCaseChars | drScript.js:302 | two strings are equal up to case exactly when they have the same length and agree character by character after folding |
| Text.Contains | drScript.js:135 | `includes`: the term is a prefix of the text or of one of its suffixes; characterised by ContainsAt and ContainsWitness |
| Text.LowerIdempotent | drScript.js:161 | lower-casing a lower-cased string changes nothing |
| Text.ContainsAt | drScript.js:135 | a term occurring at any position of the text is included in it |
| Text.ContainsWitness | drScript.js:135 | an included term occurs at some position of the text (the converse of ContainsAt) |
| Text.ContainedCharOccurs | drScript.js:373 | every character of an included term is a character of the text |
| Text.ContainsTrivial | drScript.js:373 | every text includes the empty string and itself |
| Text.TrimStart | drScript.js:285 | the result is a suffix, everything dropped is white space, and the result does not start with white space |
| Text.TrimEnd | drScript.js:285 | the result is a prefix, everything dropped is white space, and the result does not end with white space |
| Text.TrimSlice | drScript.js:285 | trimming the end after the start leaves a slice of the input with only white space before and after it |
| Text.TrimEnds | drScript.js:285 | what is left after trimming both ends has no white space at either end |
| Text.TrimUnique | drScript.js:146 | a slice of a string with only white space around it and none at its own ends is unique, so Trim's two clauses determine its result |
| Text.Trim | drScript.js:146 | the result is a slice of the input with only white space before and after it, and it neither starts nor ends with white space; by TrimUnique these fix the result |
| Text.TrimContained | drScript.js:285 | the trimmed string is included in the input |
| Text.TrimEmpty | drScript.js:146 | the trimmed string is empty exactly when the input is all white space |
| Text.TrimIdempotent | drScript.js:285 | trimming twice is trimming once |
| Text.Split | drScript.js:284 | there is always at least one part, and no part contains the separator |
| Text.JoinSplit | drScript.js:284 | joining the parts of a split with the same separator gives back the input |
| Text.SplitJoin | drScript.js:284 | splitting a join of separator-free parts gives back those parts |
| Sequences.FindIndex | drScript.js:160-162 | the result is the first position whose element matches, or None exactly when no element matches |
| Sequences.RemoveAt | drScript.js:237 | exactly element i is removed: the length drops by one, the others keep their relative order, and the multiset loses just that element |
| Records.SeedOk | drScript.js:23-77 | the four demonstration patients are well formed |
| Records.NamesDiffer | drScript.js:161 | names of different lengths, or whose first letters differ after lower-casing, are not equal up to case |
| Records.SeedNames | drScript.js:25-65 | the four demonstration patients are John Doe, Jane Smith, Carlos Mendez and Aisha Khan, in that order |
| Records.SeedNamesDiffer | drScript.js:25-65 | the four demonstration names differ pairwise up to case |
| Records.SeedNamesDistinct | drScript.js:23-77 | no two demonstration patients share a name up to case |
| Records.FindCheckup | drScript.js:119-121 | the position of the first checkup on the date, or None exactly when no checkup has that date |
| Records.CheckupNotes | drScript.js:118-124 | the notes of the first checkup on the date, or "No notes available." when no checkup has that date |
| Records.MedicineNames | drScript.js:270-273 | the list items are the medicine names, one per medicine, in order |
| Records.MedicineItems | drScript.js:264-277 | "No checkup selected." when no checkup has the date; otherwise the medicine names of the first checkup on the date, or "No medicines recorded for this date." when it has none |
| Records.SelectPromptShowsPlaceholders | drScript.js:98-99 | on a well-formed record the "Select a date" option (empty value) shows both placeholders |
| Records.FrontCheckupSelected | drScript.js:264-277 | selecting the date of the front checkup (`checkups[0]`, the most recently added) shows that checkup's notes and medicines |
| Adding.FindByName | drScript.js:160-162 | the first patient whose name equals the given one up to case, or None exactly when there is none |
| Adding.AddOutcomeOf | drScript.js:159-205 | an empty trimmed name or date fails first; otherwise the first patient whose name matches case-insensitively is updated; otherwise a new patient is added exactly when gender, age and nationality are all present, and the form is refused otherwise |
| Adding.AfterAdd | drScript.js:159-187 | the roster grows by one exactly when a new patient is added, and otherwise keeps its length |
| Adding.AddWithoutNameOrDate | drScript.js:203-205 | without a name or a checkup date the roster is untouched |
| Adding.AddToExistingPatient | drScript.js:160-170 | a matching name keeps the roster's size; that patient gains exactly the new checkup in front and keeps its stored name, gender, age and nationality; every other patient is unchanged; the form's gender, age and nationality are not needed |
| Adding.AddNewPatient | drScript.js:172-182 | an unknown name with all details appends exactly one patient with exactly one checkup, and earlier entries keep their positions |
| Adding.AddIncompleteNewPatient | drScript.js:183-186 | an unknown name with a detail missing leaves the roster untouched |
| Adding.PrependKeepsRecordsOk | drScript.js:165-170 | putting a dated checkup in front of one patient's history keeps every record well formed |
| Adding.AppendKeepsRecordsOk | drScript.js:173-181 | appending a well-formed record keeps every record well formed |
| Adding.AppendKeepsNamesDistinct | drScript.js:160-181 | appending a patient whose name no one has, up to case, keeps the names distinct |
| Adding.AddKeepsRecordsOk | drScript.js:165-181 | adding keeps every record well formed, so `checkups[0]` stays defined |
| Adding.AddKeepsNamesDistinct | drScript.js:160-181 | adding never creates two patients whose names differ only in case |
| Adding.AddThenSameNameUpdates | drScript.js:160-169 | once a form went through, the same name in any case finds the patient it landed on |
| Adding.AddThenSelectDate | drScript.js:165-181 | once a form went through, selecting its date on that patient shows the submitted notes and medicines |
| Searching.NameMatches | drScript.js:135 | defined as: the lower-cased name includes the lower-cased term |
| Searching.Search | drScript.js:132-137 | a patient is in the result exactly when it is on the roster and its lower-cased name includes the lower-cased term; the result is no longer than the roster |
| Searching.SearchAppend | drScript.js:134-136 | filtering a concatenation filters each part, so roster order is kept |
| Searching.SearchSingle | drScript.js:134-136 | a one-patient roster is kept exactly when the name matches |
| Searching.SearchEmptyTerm | drScript.js:133-136 | the empty term returns the whole roster in order |
| Searching.SearchIdempotent | drScript.js:134-136 | searching the result again with the same term changes nothing |
| Searching.SearchIgnoresCase | drScript.js:133-135 | terms that differ only in letter case give the same result |
| Searching.SearchFindsOwnName | drScript.js:134-136 | every patient is found by its own name |
| Medicines.InCatalog | drScript.js:300-303 | defined as: some catalog entry equals the name up to case |
| Medicines.TrimmedTokenOk | drScript.js:285 | trimming a comma-free part gives a token without commas or white space at its ends, cut from that part |
| Medicines.MedicineTokens | drScript.js:282-285 | one token per comma-separated part, and the parts join back to the input; each token is its part with white space, and only white space, cut from both ends, so it has no comma and no white space at its ends |
| Medicines.TokensAreTrimmedParts | drScript.js:282-285 | each token is exactly the matching comma-separated part of the input, trimmed |
| Medicines.AddToFrontCheckup | drScript.js:313-315 | the front checkup (`checkups[0]`, the most recently added) gains exactly the one medicine at the end of its list; its date and notes, the other checkups and the patient's own fields are unchanged |
| Medicines.AsMedicinesNames | drScript.js:313-315 | the names of the pushed medicine records are the pushed names |
| Medicines.SameShapeKeepsInvariants | drScript.js:313-315 | a roster that differs only in medicines keeps the well-formedness invariant, the distinct names and a valid target |
| Medicines.AbsorbToken | drScript.js:298-322 | a token changes nothing exactly when it is empty or already in the catalog (case-insensitively); otherwise the catalog gains exactly that token at its end; only medicine lists change |
| Medicines.AbsorbAll | drScript.js:297-324 | the catalog only grows at its end and only medicine lists change |
| Medicines.AbsorbAllStep | drScript.js:297 | one more token is one more pass of the loop body |
| Medicines.AbsorbTokenTarget | drScript.js:305-319 | one token grows only the selected patient's front checkup (`checkups[0]`), by exactly the new catalog entry |
| Medicines.AbsorbAllTarget | drScript.js:297-324 | the selected patient's front checkup (`checkups[0]`) gains exactly the new catalog entries, in order; its other checkups and every other patient stay as they were; with no patient selected the roster is unchanged |
| Medicines.AbsorbAllKeepsCatalogDistinct | drScript.js:300-309 | a catalog without case-insensitive duplicates stays without them |
| Medicines.AbsorbAllCatalogsEveryToken | drScript.js:297-309 | afterwards every non-empty token is in the catalog, case-insensitively |
| Medicines.AbsorbAllAddsOnlyNewTokens | drScript.js:300-309 | every entry the catalog gains is a non-empty token that was not in it before |
| Medicines.AddMedicinesThenSelectFront | drScript.js:264-277 | after adding medicines, selecting the date of the front checkup (`checkups[0]`) lists its earlier medicines followed by the new ones |
| Persistence.DistinctNamesHaveUniqueKeys | drScript.js:9 | a roster without case-insensitive duplicates has unique store keys |
| Persistence.StoreOf | drScript.js:383-387 | after the clear and the puts, the keys are exactly the names on the roster, and each key holds a roster record with that name |
| Persistence.StoreOfLastWriteWins | drScript.js:386 | a key holds the last record put under it |
| Persistence.ListsKeysStep | drScript.js:408-410 | reading one more key extends a listing by that key's record |
| Persistence.ListsKeysAll | drScript.js:408-410 | a listing of every key lists the whole store |
| Persistence.NameSetSize | drScript.js:9 | with unique keys there are as many keys as patients |
| Persistence.SaveLoadRoundTrip | drScript.js:378-415 | saving a roster with unique names and reading it back gives as many patients as were saved, each saved patient exactly once |
| Persistence.SaveLoadKeepsRecordsOk | drScript.js:399-415 | reloading what a well-formed roster saved gives a well-formed roster |
| PatientRegistry.PatientStore.constructor | drScript.js:8-9 | a new store is empty and every record sits under its own name |
| PatientRegistry.PatientStore.Clear | drScript.js:383 | the store is empty afterwards |
| PatientRegistry.PatientStore.Put | drScript.js:386 | the record is stored under its name, replacing any earlier one; every other key is unchanged |
| PatientRegistry.PatientStore.GetAll | drScript.js:408-410 | every record is listed exactly once, under unique keys |
| PatientRegistry.Registry.Valid | drScript.js:313 | defined as: every patient has a name, at least one checkup (so `checkups[0]` exists) and a date on every checkup |
| PatientRegistry.Registry.constructor | drScript.js:23-77 | the page starts with the four demonstration patients, all well formed, with names distinct up to case and so distinct store keys |
| PatientRegistry.Registry.AddPatient | drScript.js:145-205 | the branch taken and the new roster are those of AddOutcomeOf and AfterAdd; the invariant, distinct names and the catalog are kept |
| PatientRegistry.Registry.AddPatientAndSave | drScript.js:145-205 | the whole handler: as AddPatient, including that names distinct up to case stay distinct, then the store holds the new roster after an update or an addition, is untouched after a refusal, and stays in step with the roster whenever it was before |
| PatientRegistry.Registry.Delete | drScript.js:231-237 | returns the deleted patient's name, removes exactly that position, and keeps the invariant, distinct names and the catalog |
| PatientRegistry.Registry.DeleteAndSave | drScript.js:231-247 | the whole handler: as Delete, including that names distinct up to case stay distinct, then the store holds the roster without the deleted patient |
| PatientRegistry.Registry.AddMedicines | drScript.js:280-324 | the new catalog and roster are AbsorbAll over the trimmed tokens; the invariant and distinct names are kept |
| PatientRegistry.Registry.AddMedicinesAndSave | drScript.js:280-331 | the whole handler: as AddMedicines, including that names distinct up to case stay distinct, then the store holds the new roster |
| PatientRegistry.Registry.AbsorbEach | drScript.js:297-324 | the loop over the tokens leaves the state AbsorbAll computes |
| PatientRegistry.Registry.AbsorbOne | drScript.js:298-322 | one pass of the loop body leaves the state AbsorbToken computes |
| PatientRegistry.Registry.MedicineVisibility | drScript.js:360-374 | option i is shown exactly when its lower-cased text includes the lower-cased term (always, for the empty term) |
| PatientRegistry.Registry.Save | drScript.js:378-388 | the store afterwards is StoreOf the roster |
| PatientRegistry.Registry.Load | drScript.js:399-415 | the roster afterwards lists every stored record exactly once; the catalog is kept |
| PatientRegistry.SaveThenLoad | drScript.js:378-415 | a save followed by a load of a roster with unique names leaves the store holding that roster, keeps the catalog, and restores a well-formed roster of the same size with the same patients |

## Left out

- Rendering is not modelled: the patient list, the details panels, the toggles, resetting the form and re-selecting medicine options (drScript.js:78-116, 127-130, 140-143, 208-216, 346-357). It is presentation only.
- `alert`, `confirm` and the delete dialog are not modelled. The two refusals of `addPatient` appear as the outcomes `MissingNameOrDate` and `MissingDetails`.
- Opening the database, the upgrade, transactions, asynchronous callbacks and logging are not modelled. The store is a map with clear-then-put writes and a read of all records. A save is not modelled as asynchronous; it completes before anything else happens.
- The handlers save as if the database is always open: the `if (db)` branches that only log (drScript.js:193-195, 242-244, 329-331) are not modelled, and neither is the read-back transaction after `addMedicine` (drScript.js:334-344), which has no effect on the roster or the store.
- How `addMedicine` finds the selected patient (matching list-item text, drScript.js:293-295) is a DOM query. The result is the parameter `target`: `None` for -1, otherwise a roster position.
- The mismatch between positions in a filtered rendering and `patients[index]` is not modelled. It is a binding issue in the rendering.
- `PatientForm.age` is an `Option<int>` that stands for the already-parsed field. `parseInt` itself is not modelled, and neither is the truthiness of the raw age string.
- Text.Lower: folds only the ASCII letters A-Z. `toLowerCase` also folds non-ASCII letters.
- PatientRegistry.PatientStore.GetAll: the store's key order of `getAll` is not modelled. The contract allows any order that lists each record once.
- PatientRegistry.Registry.Load: the store is not checked, so the roster is well formed afterwards only when every stored record is.
- PatientRegistry.Registry.Delete: requires an in-range position. The source reads `patients[selectedIndex].name` before the `splice`, so an out-of-range position fails there.
- Each catalog entry stands for one selector option whose `value` and text are taken to be equal. De-duplication and the form's medicines read `option.value` (drScript.js:156, 302); the filter reads `option.textContent` (drScript.js:369). The two agree for the options `addMedicine` creates (drScript.js:307-308), but the initial options come from the page's HTML, which is not part of this model.
- Medicine de-duplication follows the code: a token is compared, case-insensitively, with the whole catalog of selector options, not with the selected checkup's own list.
- Loading follows the code: an empty store empties the roster; the demonstration patients are not kept as a fallback.
