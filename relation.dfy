/**
 * The many-to-many relation between Experiment and ClinicalTest documents as the store
 * holds it: each document carries the ids of the other side. This module states the
 * integrity invariants the manager is meant to keep, the store each manager operation
 * produces from handles that mirror the store, and the properties of those stores.
 */
module Relation {
  import opened IdLists

  /** The durable state: the id list of every stored document, by document id. */
  datatype Store = Store(experiments: map<Id, seq<Id>>, clinicalTests: map<Id, seq<Id>>)

  /** The ClinicalTestIds of Experiment e; an Experiment not in the store has none. */
  function ExperimentList(s: Store, e: Id): seq<Id> {
    if e in s.experiments then s.experiments[e] else []
  }

  /** The ExperimentIds of ClinicalTest c; a ClinicalTest not in the store has none. */
  function ClinicalTestList(s: Store, c: Id): seq<Id> {
    if c in s.clinicalTests then s.clinicalTests[c] else []
  }

  /** Bidirectional consistency: C is in E's list exactly when E is in C's list. */
  ghost predicate Consistent(s: Store) {
    forall e, c :: c in ExperimentList(s, e) <==> e in ClinicalTestList(s, c)
  }

  /** No orphans: a stored ClinicalTest is linked to at least one Experiment. */
  ghost predicate NoOrphans(s: Store) {
    forall c :: c in s.clinicalTests ==> s.clinicalTests[c] != []
  }

  /** No stored list holds an id twice. */
  ghost predicate NoDuplicates(s: Store) {
    && (forall e :: e in s.experiments ==> NoDup(s.experiments[e]))
    && (forall c :: c in s.clinicalTests ==> NoDup(s.clinicalTests[c]))
  }

  ghost predicate Valid(s: Store) {
    Consistent(s) && NoOrphans(s) && NoDuplicates(s)
  }

  // ---------------------------------------------------------------------------
  // The store after each operation, starting from handles that mirror s

  /** Associate(E, C): nothing if C is already in E's list, otherwise both sides get the other's id. */
  function Associated(s: Store, e: Id, c: Id): (r: Store)
    ensures c in ExperimentList(r, e)
    ensures c !in ExperimentList(s, e) ==> e in ClinicalTestList(r, c)
    ensures forall x :: x != e ==> ExperimentList(r, x) == ExperimentList(s, x)
    ensures forall y :: y != c ==> ClinicalTestList(r, y) == ClinicalTestList(s, y)
  {
    if c in ExperimentList(s, e) then s
    else Store(s.experiments[e := ExperimentList(s, e) + [c]],
               s.clinicalTests[c := ClinicalTestList(s, c) + [e]])
  }

  /** The orphan rule: ClinicalTest c is saved with list rest, or deleted when rest is empty. */
  function SaveOrRemove(m: map<Id, seq<Id>>, c: Id, rest: seq<Id>): map<Id, seq<Id>> {
    if rest == [] then m - {c} else m[c := rest]
  }

  /** Only the last save-or-remove of a ClinicalTest decides its entry. */
  lemma SaveOrRemoveTwice(m: map<Id, seq<Id>>, c: Id, a: seq<Id>, b: seq<Id>)
    ensures SaveOrRemove(SaveOrRemove(m, c, a), c, b) == SaveOrRemove(m, c, b)
  {
    if a == [] && b != [] {
      assert (m - {c})[c := b] == m[c := b];
    }
  }

  /** Saving a ClinicalTest with the list it is stored with, or removing one not stored, changes nothing. */
  lemma SaveOrRemoveStored(m: map<Id, seq<Id>>, c: Id, rest: seq<Id>)
    requires rest == [] ==> c !in m
    requires rest != [] ==> c in m && m[c] == rest
    ensures SaveOrRemove(m, c, rest) == m
  {
  }

  /** Disassociate(E, C): each side loses the other's id; a ClinicalTest left with none is deleted. */
  function Disassociated(s: Store, e: Id, c: Id): (r: Store)
    ensures e in r.experiments
    ensures c in r.clinicalTests <==> RemoveFirst(ClinicalTestList(s, c), e) != []
    ensures forall x :: x != e ==> ExperimentList(r, x) == ExperimentList(s, x)
    ensures forall y :: y != c ==> ClinicalTestList(r, y) == ClinicalTestList(s, y)
  {
    Store(s.experiments[e := RemoveFirst(ExperimentList(s, e), c)],
          SaveOrRemove(s.clinicalTests, c, RemoveFirst(ClinicalTestList(s, c), e)))
  }

  /**
   * The ClinicalTest map once the ClinicalTests in done have each had Experiment e
   * taken out of their list, those left with an empty list being deleted.
   */
  function Detached(m: map<Id, seq<Id>>, e: Id, done: set<Id>): map<Id, seq<Id>> {
    map c | c in m && (c !in done || RemoveFirst(m[c], e) != []) ::
      if c in done then RemoveFirst(m[c], e) else m[c]
  }

  /** DeleteExperiment(E): every ClinicalTest in E's list is disassociated, then E is removed. */
  function ExperimentDeleted(s: Store, e: Id): (r: Store)
    ensures e !in r.experiments
    ensures forall x :: x != e ==> ExperimentList(r, x) == ExperimentList(s, x)
    ensures forall y :: y !in ExperimentList(s, e) ==> ClinicalTestList(r, y) == ClinicalTestList(s, y)
    ensures r.clinicalTests.Keys <= s.clinicalTests.Keys
  {
    Store(s.experiments - {e}, Detached(s.clinicalTests, e, Elems(ExperimentList(s, e))))
  }

  /** The Experiment map once the Experiments in done have each had ClinicalTest c taken out of their list. */
  function Stripped(m: map<Id, seq<Id>>, c: Id, done: set<Id>): map<Id, seq<Id>> {
    map x | x in m :: if x in done then RemoveFirst(m[x], c) else m[x]
  }

  /** DeleteClinicalTest(C): every Experiment loses C from its list, and C is gone. */
  function ClinicalTestDeleted(s: Store, c: Id): (r: Store)
    ensures c !in r.clinicalTests && r.experiments.Keys == s.experiments.Keys
    ensures forall y :: y != c ==> ClinicalTestList(r, y) == ClinicalTestList(s, y)
    ensures forall x :: c !in ExperimentList(s, x) ==> ExperimentList(r, x) == ExperimentList(s, x)
  {
    Store(Stripped(s.experiments, c, s.experiments.Keys), s.clinicalTests - {c})
  }

  // ---------------------------------------------------------------------------
  // Associate

  /** Associate keeps all three invariants. */
  lemma AssociatedValid(s: Store, e: Id, c: Id)
    requires Valid(s)
    ensures Valid(Associated(s, e, c))
  {
    var L, K := ExperimentList(s, e), ClinicalTestList(s, c);
    if c !in L {
      var r := Associated(s, e, c);
      assert e !in K;
      forall e2, c2 ensures c2 in ExperimentList(r, e2) <==> e2 in ClinicalTestList(r, c2) {
        assert c2 in ExperimentList(s, e2) <==> e2 in ClinicalTestList(s, c2);
      }
      assert NoDup(L) && NoDup(K);
      NoDupAppend(L, c);
      NoDupAppend(K, e);
    }
  }

  /**
   * Associate links both sides, and a second identical Associate changes nothing:
   * each side then holds the other's id exactly once. Every other list is untouched.
   */
  lemma AssociatedTwice(s: Store, e: Id, c: Id)
    requires Valid(s)
    ensures Associated(Associated(s, e, c), e, c) == Associated(s, e, c)
    ensures multiset(ExperimentList(Associated(s, e, c), e))[c] == 1
    ensures multiset(ClinicalTestList(Associated(s, e, c), c))[e] == 1
    ensures forall x :: x != e ==> ExperimentList(Associated(s, e, c), x) == ExperimentList(s, x)
    ensures forall x :: x != c ==> ClinicalTestList(Associated(s, e, c), x) == ClinicalTestList(s, x)
  {
    var r := Associated(s, e, c);
    AssociatedValid(s, e, c);
    assert c in ExperimentList(r, e);
    assert e in ClinicalTestList(r, c);
    NoDupOnce(ExperimentList(r, e), c);
    NoDupOnce(ClinicalTestList(r, c), e);
  }

  // ---------------------------------------------------------------------------
  // Disassociate

  /** What Disassociate does to each list: E loses C, C loses E, every other list stays. */
  lemma DisassociatedLists(s: Store, e: Id, c: Id, x: Id)
    ensures ExperimentList(Disassociated(s, e, c), x) ==
      if x == e then RemoveFirst(ExperimentList(s, e), c) else ExperimentList(s, x)
    ensures ClinicalTestList(Disassociated(s, e, c), x) ==
      if x == c then RemoveFirst(ClinicalTestList(s, c), e) else ClinicalTestList(s, x)
  {
  }

  /** Disassociate keeps all three invariants, and afterwards neither side names the other. */
  lemma DisassociatedValid(s: Store, e: Id, c: Id)
    requires Valid(s)
    ensures Valid(Disassociated(s, e, c))
    ensures c !in ExperimentList(Disassociated(s, e, c), e)
    ensures e !in ClinicalTestList(Disassociated(s, e, c), c)
  {
    var L, K := ExperimentList(s, e), ClinicalTestList(s, c);
    var r := Disassociated(s, e, c);
    RemoveFirstNoDup(L, c);
    RemoveFirstNoDup(K, e);
    DisassociatedLists(s, e, c, e);
    DisassociatedLists(s, e, c, c);
    forall e2, c2 ensures c2 in ExperimentList(r, e2) <==> e2 in ClinicalTestList(r, c2) {
      DisassociatedLists(s, e, c, e2);
      DisassociatedLists(s, e, c, c2);
      assert c2 in ExperimentList(s, e2) <==> e2 in ClinicalTestList(s, c2);
    }
    forall x | x in r.experiments ensures NoDup(r.experiments[x]) {
      DisassociatedLists(s, e, c, x);
      assert r.experiments[x] == ExperimentList(r, x);
    }
    forall x | x in r.clinicalTests ensures NoDup(r.clinicalTests[x]) && r.clinicalTests[x] != [] {
      DisassociatedLists(s, e, c, x);
      assert r.clinicalTests[x] == ClinicalTestList(r, x);
    }
  }

  /** The orphan rule: C leaves the store exactly when E was the last Experiment in its list. */
  lemma DisassociatedOrphan(s: Store, e: Id, c: Id)
    requires Valid(s)
    ensures c in Disassociated(s, e, c).clinicalTests <==> c in s.clinicalTests && s.clinicalTests[c] != [e]
  {
    RemoveFirstEmpty(ClinicalTestList(s, c), e);
  }

  /** Disassociating a pair that is not linked leaves a store holding both documents as it was. */
  lemma DisassociatedUnlinked(s: Store, e: Id, c: Id)
    requires Valid(s)
    requires e in s.experiments && c in s.clinicalTests
    requires c !in s.experiments[e]
    ensures Disassociated(s, e, c) == s
  {
    assert e !in ClinicalTestList(s, c);
  }

  /**
   * Round trip on a fresh pair: when E does not name C and C is linked to nothing,
   * Associate then Disassociate gives E its original list back and leaves C out of the store.
   */
  lemma AssociateDisassociate(s: Store, e: Id, c: Id)
    requires c !in ExperimentList(s, e) && ClinicalTestList(s, c) == []
    ensures ExperimentList(Disassociated(Associated(s, e, c), e, c), e) == ExperimentList(s, e)
    ensures Disassociated(Associated(s, e, c), e, c).clinicalTests == s.clinicalTests - {c}
    ensures e in s.experiments ==> Disassociated(Associated(s, e, c), e, c).experiments == s.experiments
  {
    RemoveFirstAppended(ExperimentList(s, e), c);
    assert RemoveFirst([e], e) == [];
    var a := Associated(s, e, c);
    assert a.clinicalTests[c] == [e];
    assert a.clinicalTests - {c} == s.clinicalTests - {c};
  }

  // ---------------------------------------------------------------------------
  // DeleteExperiment

  /** Detaching nothing leaves the ClinicalTest map as it is. */
  lemma DetachedNone(m: map<Id, seq<Id>>, e: Id)
    ensures Detached(m, e, {}) == m
  {
  }

  /** Saving a document twice keeps only the second list. */
  lemma SavedTwice(m: map<Id, seq<Id>>, k: Id, a: seq<Id>, b: seq<Id>)
    ensures m[k := a][k := b] == m[k := b]
  {
  }

  /** The ClinicalTest side of one Disassociate(E, x) on the ClinicalTest map m. */
  function DetachOne(m: map<Id, seq<Id>>, e: Id, x: Id): map<Id, seq<Id>> {
    SaveOrRemove(m, x, RemoveFirst(if x in m then m[x] else [], e))
  }

  /** The ClinicalTest side of Disassociate(E, x) for each x of cs in turn. */
  function DetachAll(m: map<Id, seq<Id>>, e: Id, cs: seq<Id>): map<Id, seq<Id>> {
    if cs == [] then m
    else DetachOne(DetachAll(m, e, cs[..|cs| - 1]), e, cs[|cs| - 1])
  }

  /** One more Disassociate(E, x) on the ClinicalTest side adds x to the ClinicalTests detached. */
  lemma DetachOneDetached(m: map<Id, seq<Id>>, e: Id, done: set<Id>, x: Id)
    requires x !in done
    ensures DetachOne(Detached(m, e, done), e, x) == Detached(m, e, done + {x})
  {
    if x in m {
      assert x in Detached(m, e, done) && Detached(m, e, done)[x] == m[x];
    } else {
      assert x !in Detached(m, e, done);
    }
  }

  /** A ClinicalTest not yet processed still has its original entry. */
  lemma {:induction false} DetachAllOutside(m: map<Id, seq<Id>>, e: Id, cs: seq<Id>, x: Id)
    requires x !in cs
    ensures x in DetachAll(m, e, cs) <==> x in m
    ensures x in m ==> DetachAll(m, e, cs)[x] == m[x]
  {
    if cs != [] {
      DetachAllOutside(m, e, cs[..|cs| - 1], x);
    }
  }

  /** One turn of the DeleteExperiment loop: the next ClinicalTest meets its original entry. */
  lemma DetachAllNext(m: map<Id, seq<Id>>, e: Id, cs: seq<Id>, i: nat)
    requires i < |cs| && NoDup(cs) && cs[i] in m
    ensures DetachAll(m, e, cs[..i + 1]) == DetachOne(DetachAll(m, e, cs[..i]), e, cs[i])
    ensures cs[i] in DetachAll(m, e, cs[..i]) && DetachAll(m, e, cs[..i])[cs[i]] == m[cs[i]]
  {
    assert cs[..i + 1][..i] == cs[..i];
    assert cs == cs[..i] + cs[i..] && cs[i] == cs[i..][0];
    NoDupSplit(cs[..i], cs[i..]);
    DetachAllOutside(m, e, cs[..i], cs[i]);
  }

  /** Detaching a list without duplicates one by one is detaching its set at once: order does not matter. */
  lemma {:induction false} DetachAllDetached(m: map<Id, seq<Id>>, e: Id, cs: seq<Id>)
    requires NoDup(cs)
    ensures DetachAll(m, e, cs) == Detached(m, e, Elems(cs))
  {
    if cs == [] {
      DetachedNone(m, e);
    } else {
      var front, x := cs[..|cs| - 1], cs[|cs| - 1];
      assert cs == front + [x];
      NoDupSplit(front, [x]);
      assert Elems(cs) == Elems(front) + {x};
      DetachAllDetached(m, e, front);
      DetachOneDetached(m, e, Elems(front), x);
    }
  }

  /** Deleting an Experiment the store does not hold leaves the store as it is. */
  lemma ExperimentDeletedMissing(s: Store, e: Id)
    requires e !in s.experiments
    ensures ExperimentDeleted(s, e) == s
  {
    DetachedNone(s.clinicalTests, e);
    assert Elems(ExperimentList(s, e)) == {};
    assert s.experiments - {e} == s.experiments;
  }

  /** In a valid store an Experiment's list has no duplicates and names only stored ClinicalTests. */
  lemma ValidCascadeExperiment(s: Store, e: Id)
    requires Valid(s)
    ensures NoDup(ExperimentList(s, e))
    ensures forall x :: x in ExperimentList(s, e) ==> x in s.clinicalTests
  {
    forall x | x in ExperimentList(s, e) ensures x in s.clinicalTests {
      assert e in ClinicalTestList(s, x);
    }
  }

  /** Deleting an Experiment keeps all three invariants. */
  lemma ExperimentDeletedValid(s: Store, e: Id)
    requires Valid(s)
    ensures Valid(ExperimentDeleted(s, e))
  {
    var r := ExperimentDeleted(s, e);
    var done := Elems(ExperimentList(s, e));
    forall c | c in s.clinicalTests {
      RemoveFirstNoDup(s.clinicalTests[c], e);
    }
    forall e2, c2 ensures c2 in ExperimentList(r, e2) <==> e2 in ClinicalTestList(r, c2) {
      assert c2 in ExperimentList(s, e2) <==> e2 in ClinicalTestList(s, c2);
      assert c2 in ExperimentList(s, e) <==> e in ClinicalTestList(s, c2);
    }
  }

  /**
   * The cascade: E is gone; a ClinicalTest survives exactly when it was linked to some
   * Experiment besides E, keeping its other ids; ClinicalTests not linked to E and all
   * other Experiments are untouched.
   */
  lemma ExperimentDeletedEffects(s: Store, e: Id)
    requires Valid(s)
    ensures e !in ExperimentDeleted(s, e).experiments
    ensures forall x :: x != e ==> ExperimentList(ExperimentDeleted(s, e), x) == ExperimentList(s, x)
    ensures forall c :: c in ExperimentDeleted(s, e).clinicalTests <==> c in s.clinicalTests && s.clinicalTests[c] != [e]
    ensures forall c, y :: c in ExperimentDeleted(s, e).clinicalTests ==>
      (y in ExperimentDeleted(s, e).clinicalTests[c] <==> y in s.clinicalTests[c] && y != e)
    ensures forall c :: c in s.clinicalTests && e !in s.clinicalTests[c] ==>
      c in ExperimentDeleted(s, e).clinicalTests && ExperimentDeleted(s, e).clinicalTests[c] == s.clinicalTests[c]
    ensures forall c :: e !in ClinicalTestList(ExperimentDeleted(s, e), c)
  {
    var r := ExperimentDeleted(s, e);
    var done := Elems(ExperimentList(s, e));
    forall c | c in s.clinicalTests
      ensures c in r.clinicalTests <==> s.clinicalTests[c] != [e]
      ensures c in r.clinicalTests ==> forall y :: y in r.clinicalTests[c] <==> y in s.clinicalTests[c] && y != e
      ensures e !in s.clinicalTests[c] ==> c in r.clinicalTests && r.clinicalTests[c] == s.clinicalTests[c]
    {
      assert c in ExperimentList(s, e) <==> e in ClinicalTestList(s, c);
      assert c in done <==> e in s.clinicalTests[c];
      RemoveFirstNoDup(s.clinicalTests[c], e);
      RemoveFirstEmpty(s.clinicalTests[c], e);
    }
  }

  // ---------------------------------------------------------------------------
  // DeleteClinicalTest

  /** Stripping C from no Experiment leaves the Experiment map as it is. */
  lemma StrippedNone(m: map<Id, seq<Id>>, c: Id)
    ensures Stripped(m, c, {}) == m
  {
  }

  /**
   * One step of the DeleteClinicalTest scan on the Experiment map m: an Experiment x
   * whose list names c is disassociated from it; any other is left alone.
   */
  function StripOne(m: map<Id, seq<Id>>, c: Id, x: Id): map<Id, seq<Id>> {
    if x in m && c in m[x] then m[x := RemoveFirst(m[x], c)] else m
  }

  /** The Experiment side of Disassociate(x, C) for each x of xs in turn. */
  function StripAll(m: map<Id, seq<Id>>, c: Id, xs: seq<Id>): map<Id, seq<Id>> {
    if xs == [] then m
    else StripOne(StripAll(m, c, xs[..|xs| - 1]), c, xs[|xs| - 1])
  }

  /** An Experiment not yet processed still has its original entry. */
  lemma {:induction false} StripAllOutside(m: map<Id, seq<Id>>, c: Id, xs: seq<Id>, x: Id)
    requires x !in xs
    ensures x in StripAll(m, c, xs) <==> x in m
    ensures x in m ==> StripAll(m, c, xs)[x] == m[x]
  {
    if xs != [] {
      StripAllOutside(m, c, xs[..|xs| - 1], x);
    }
  }

  /** One turn of the DeleteClinicalTest loop: the next Experiment meets its original entry. */
  lemma StripAllNext(m: map<Id, seq<Id>>, c: Id, xs: seq<Id>, i: nat)
    requires i < |xs| && NoDup(xs) && xs[i] in m
    ensures StripAll(m, c, xs[..i + 1]) == StripOne(StripAll(m, c, xs[..i]), c, xs[i])
    ensures xs[i] in StripAll(m, c, xs[..i]) && StripAll(m, c, xs[..i])[xs[i]] == m[xs[i]]
  {
    assert xs[..i + 1][..i] == xs[..i];
    assert xs == xs[..i] + xs[i..] && xs[i] == xs[i..][0];
    NoDupSplit(xs[..i], xs[i..]);
    StripAllOutside(m, c, xs[..i], xs[i]);
  }

  /** One more Disassociate(x, C) on the Experiment side adds x to the Experiments stripped. */
  lemma StripOneStripped(m: map<Id, seq<Id>>, c: Id, done: set<Id>, x: Id)
    requires x !in done
    ensures StripOne(Stripped(m, c, done), c, x) == Stripped(m, c, done + {x})
  {
    if x in m {
      assert x in Stripped(m, c, done) && Stripped(m, c, done)[x] == m[x];
      if c !in m[x] {
        assert Stripped(m, c, done + {x}) == Stripped(m, c, done)[x := m[x]];
      }
    }
  }

  /** Stripping a list without duplicates one by one is stripping its set at once: order does not matter. */
  lemma {:induction false} StripAllStripped(m: map<Id, seq<Id>>, c: Id, xs: seq<Id>)
    requires NoDup(xs)
    ensures StripAll(m, c, xs) == Stripped(m, c, Elems(xs))
  {
    if xs == [] {
      StrippedNone(m, c);
    } else {
      var front, x := xs[..|xs| - 1], xs[|xs| - 1];
      assert xs == front + [x];
      NoDupSplit(front, [x]);
      assert Elems(xs) == Elems(front) + {x};
      StripAllStripped(m, c, front);
      StripOneStripped(m, c, Elems(front), x);
    }
  }

  /**
   * In a valid store a ClinicalTest's list has no duplicates and names exactly the
   * Experiments whose lists name it, and a ClinicalTest with an empty list is not stored.
   */
  lemma ValidCascadeClinicalTest(s: Store, c: Id)
    requires Valid(s)
    ensures NoDup(ClinicalTestList(s, c))
    ensures forall x :: c in ExperimentList(s, x) <==> x in ClinicalTestList(s, c)
    ensures ClinicalTestList(s, c) == [] ==> c !in s.clinicalTests
  {
  }

  /** Deleting a ClinicalTest keeps all three invariants. */
  lemma ClinicalTestDeletedValid(s: Store, c: Id)
    requires Valid(s)
    ensures Valid(ClinicalTestDeleted(s, c))
  {
    var r := ClinicalTestDeleted(s, c);
    forall x | x in s.experiments {
      RemoveFirstNoDup(s.experiments[x], c);
    }
    forall e2, c2 ensures c2 in ExperimentList(r, e2) <==> e2 in ClinicalTestList(r, c2) {
      assert c2 in ExperimentList(s, e2) <==> e2 in ClinicalTestList(s, c2);
    }
  }

  /**
   * The reverse cascade: C is gone and no Experiment names it; an Experiment that did
   * not name C keeps its list, one that did keeps its other ids; other ClinicalTests
   * are untouched.
   */
  lemma ClinicalTestDeletedEffects(s: Store, c: Id)
    requires Valid(s)
    ensures c !in ClinicalTestDeleted(s, c).clinicalTests
    ensures forall x :: c !in ExperimentList(ClinicalTestDeleted(s, c), x)
    ensures ClinicalTestDeleted(s, c).experiments.Keys == s.experiments.Keys
    ensures forall x :: x in s.experiments && c !in s.experiments[x] ==>
      ClinicalTestDeleted(s, c).experiments[x] == s.experiments[x]
    ensures forall x, y :: x in s.experiments ==>
      (y in ClinicalTestDeleted(s, c).experiments[x] <==> y in s.experiments[x] && y != c)
    ensures forall x :: x != c ==> ClinicalTestList(ClinicalTestDeleted(s, c), x) == ClinicalTestList(s, x)
  {
    forall x | x in s.experiments {
      RemoveFirstNoDup(s.experiments[x], c);
    }
  }
}
