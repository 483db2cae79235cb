/**
  The search box: `patients.filter(p => p.name.toLowerCase().includes(term))`
  with the term lower-cased too. It builds a new list and leaves the roster as
  it was.
 */
module Searching {
  import opened Text
  import opened Records

  /** The lower-cased `name` includes the lower-cased `term`. */
  predicate NameMatches(name: string, term: string) {
    Contains(Lower(name), Lower(term))
  }

  /** The patients whose name matches `term`, in roster order. */
  function Search(ps: seq<Patient>, term: string): (r: seq<Patient>)
    ensures |r| <= |ps|
    ensures forall p :: p in r <==> p in ps && NameMatches(p.name, term)
  {
    if ps == [] then []
    else (if NameMatches(ps[0].name, term) then [ps[0]] else []) + Search(ps[1..], term)
  }

  /** Filtering keeps roster order: it works piece by piece on a concatenation. */
  lemma {:induction false} SearchAppend(a: seq<Patient>, b: seq<Patient>, term: string)
    ensures Search(a + b, term) == Search(a, term) + Search(b, term)
  {
    if a != [] {
      assert (a + b)[1..] == a[1..] + b;
      SearchAppend(a[1..], b, term);
    } else {
      assert a + b == b;
    }
  }

  /** A one-patient roster is kept exactly when the name matches. */
  lemma SearchSingle(p: Patient, term: string)
    ensures Search([p], term) == if NameMatches(p.name, term) then [p] else []
  {
    assert [p][1..] == [];
  }

  /** The empty term keeps the whole roster, in order. */
  lemma {:induction false} SearchEmptyTerm(ps: seq<Patient>)
    ensures Search(ps, "") == ps
  {
    if ps != [] {
      ContainsTrivial(Lower(ps[0].name));
      SearchEmptyTerm(ps[1..]);
    }
  }

  /** Searching the result again with the same term changes nothing. */
  lemma {:induction false} SearchIdempotent(ps: seq<Patient>, term: string)
    ensures Search(Search(ps, term), term) == Search(ps, term)
  {
    if ps != [] {
      var head := if NameMatches(ps[0].name, term) then [ps[0]] else [];
      SearchAppend(head, Search(ps[1..], term), term);
      SearchIdempotent(ps[1..], term);
      if head != [] {
        SearchSingle(ps[0], term);
      }
    }
  }

  /** Terms that differ only in letter case give the same result ("JANE" and "jane"). */
  lemma {:induction false} SearchIgnoresCase(ps: seq<Patient>, t1: string, t2: string)
    requires Lower(t1) == Lower(t2)
    ensures Search(ps, t1) == Search(ps, t2)
  {
    if ps != [] {
      SearchIgnoresCase(ps[1..], t1, t2);
    }
  }

  /** Every patient is found by its own name. */
  lemma SearchFindsOwnName(ps: seq<Patient>, i: nat)
    requires i < |ps|
    ensures ps[i] in Search(ps, ps[i].name)
  {
    ContainsTrivial(Lower(ps[i].name));
  }
}
