/**
  The object store "patients", keyed by `name`, seen as a map from key to
  record. Saving clears it and then puts every patient in roster order;
  loading reads every record back. The store's own order of `getAll` is not
  modelled: a load may list the records in any order, each exactly once.
 */
module Persistence {
  import opened Text
  import opened Records

  /** No two patients share a store key; keys are compared exactly. */
  predicate UniqueKeys(ps: seq<Patient>) {
    forall i, j :: 0 <= i < j < |ps| ==> ps[i].name != ps[j].name
  }

  /** A roster without case-insensitive duplicates has unique keys. */
  lemma DistinctNamesHaveUniqueKeys(ps: seq<Patient>)
    requires DistinctNames(ps)
    ensures UniqueKeys(ps)
  {
  }

  function NameSet(ps: seq<Patient>): set<string> {
    set p | p in ps :: p.name
  }

  /**
    The store after `clear()` and one `put` per patient in roster order: one
    record per distinct name, each the record stored under its own name.
   */
  function StoreOf(ps: seq<Patient>): (m: map<string, Patient>)
    ensures m.Keys == NameSet(ps)
    ensures forall k :: k in m ==> m[k].name == k && m[k] in ps
  {
    if ps == [] then map[]
    else
      var front := ps[..|ps| - 1];
      var p := ps[|ps| - 1];
      assert ps == front + [p];
      assert NameSet(ps) == NameSet(front) + {p.name};
      StoreOf(front)[p.name := p]
  }

  /** A later `put` with the same key overwrites: the record kept is the last one put. */
  lemma {:induction false} StoreOfLastWriteWins(ps: seq<Patient>, i: nat)
    requires i < |ps|
    requires forall j :: i < j < |ps| ==> ps[j].name != ps[i].name
    ensures ps[i].name in StoreOf(ps) && StoreOf(ps)[ps[i].name] == ps[i]
  {
    if i < |ps| - 1 {
      StoreOfLastWriteWins(ps[..|ps| - 1], i);
    }
  }

  /** `loaded` lists the records of the store, each exactly once. */
  predicate ListsRecords(loaded: seq<Patient>, records: map<string, Patient>) {
    && |loaded| == |records|
    && (forall i :: 0 <= i < |loaded| ==> loaded[i].name in records && records[loaded[i].name] == loaded[i])
    && (forall k :: k in records ==> exists i :: 0 <= i < |loaded| && loaded[i].name == k)
    && UniqueKeys(loaded)
  }

  /** `loaded` lists, each once, the records of `records` whose keys are in `done`. */
  predicate ListsKeys(loaded: seq<Patient>, records: map<string, Patient>, done: set<string>) {
    && done <= records.Keys
    && |loaded| == |done|
    && (forall i :: 0 <= i < |loaded| ==> loaded[i].name in done && records[loaded[i].name] == loaded[i])
    && (forall k :: k in done ==> exists i :: 0 <= i < |loaded| && loaded[i].name == k)
    && UniqueKeys(loaded)
  }

  /** Reading the record under one more key extends the listing by that key. */
  lemma ListsKeysStep(loaded: seq<Patient>, records: map<string, Patient>, done: set<string>, k: string)
    requires ListsKeys(loaded, records, done)
    requires k in records && k !in done && records[k].name == k
    ensures ListsKeys(loaded + [records[k]], records, done + {k})
  {
    var next := loaded + [records[k]];
    assert next[|loaded|].name == k;
    assert forall i :: 0 <= i < |loaded| ==> next[i] == loaded[i];
    assert UniqueKeys(next);
    forall k' | k' in done + {k} ensures exists i :: 0 <= i < |next| && next[i].name == k' {
      if k' != k {
        var i :| 0 <= i < |loaded| && loaded[i].name == k';
        assert next[i] == loaded[i];
      }
    }
  }

  /** A listing of every key lists the whole store. */
  lemma ListsKeysAll(loaded: seq<Patient>, records: map<string, Patient>)
    requires ListsKeys(loaded, records, records.Keys)
    ensures ListsRecords(loaded, records)
  {
  }

  lemma {:induction false} NameSetSize(ps: seq<Patient>)
    requires UniqueKeys(ps)
    ensures |NameSet(ps)| == |ps|
  {
    if ps != [] {
      var front := ps[..|ps| - 1];
      var p := ps[|ps| - 1];
      assert ps == front + [p];
      assert NameSet(ps) == NameSet(front) + {p.name};
      NameSetSize(front);
      assert p.name !in NameSet(front);
    }
  }

  /**
    Saving a roster with unique keys and reading the store back gives the
    same patients, field for field, as many as were saved, in some order.
   */
  lemma SaveLoadRoundTrip(ps: seq<Patient>, loaded: seq<Patient>)
    requires UniqueKeys(ps)
    requires ListsRecords(loaded, StoreOf(ps))
    ensures |loaded| == |ps|
    ensures forall p :: p in loaded <==> p in ps
  {
    var m := StoreOf(ps);
    NameSetSize(ps);
    assert |m| == |m.Keys|;
    forall p | p in ps ensures p in loaded {
      var j :| 0 <= j < |ps| && ps[j] == p;
      StoreOfLastWriteWins(ps, j);
      var i :| 0 <= i < |loaded| && loaded[i].name == p.name;
    }
  }

  /** A reload of what a well-formed roster saved is well formed again. */
  lemma SaveLoadKeepsRecordsOk(ps: seq<Patient>, loaded: seq<Patient>)
    requires AllOk(ps)
    requires ListsRecords(loaded, StoreOf(ps))
    ensures AllOk(loaded)
  {
    forall i | 0 <= i < |loaded| ensures PatientOk(loaded[i]) {
      var m := StoreOf(ps);
      assert m[loaded[i].name] in ps;
    }
  }
}
