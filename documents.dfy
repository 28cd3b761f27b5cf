/**
 * The document store and the in-memory document handles the manager works on. The
 * store keeps one container per document kind, each an upsert/delete map from id to the
 * document's id list, plus a record of the writes it has applied. A handle is a loaded
 * copy of one document; its list changes in place and reaches the store only when the
 * handle saves itself.
 */
module Documents {
  import opened IdLists
  import opened Relation

  /** One write the store applied, in the order it was applied. */
  datatype Write =
    | SaveExperiment(id: Id, clinicalTestIds: seq<Id>)
    | RemoveExperiment(id: Id)
    | SaveClinicalTest(id: Id, experimentIds: seq<Id>)
    | RemoveClinicalTest(id: Id)

  /** Failures the store reports: deleting a document it does not hold. */
  datatype StoreError = NotFound(id: Id)

  datatype Outcome = Pass | Fail(error: StoreError)

  class Database {
    var experiments: map<Id, seq<Id>>
    var clinicalTests: map<Id, seq<Id>>
    /** The writes applied so far, oldest first. */
    ghost var writes: seq<Write>

    constructor (experiments: map<Id, seq<Id>>, clinicalTests: map<Id, seq<Id>>)
      ensures this.experiments == experiments && this.clinicalTests == clinicalTests
      ensures writes == []
    {
      this.experiments := experiments;
      this.clinicalTests := clinicalTests;
      writes := [];
    }

    function State(): Store
      reads this
    {
      Store(experiments, clinicalTests)
    }

    /** The handle holds the stored list, or is a new Experiment not yet saved and names nothing. */
    predicate MirrorsExperiment(e: Experiment)
      reads this, e
    {
      e.clinicalTestIds == ExperimentList(State(), e.id)
    }

    /** The handle holds the stored list, or is a new ClinicalTest not yet saved and names nothing. */
    predicate MirrorsClinicalTest(c: ClinicalTest)
      reads this, c
    {
      c.experimentIds == ClinicalTestList(State(), c.id)
    }
  }

  /** Appending to the log in two steps is appending once. */
  lemma AppendAssociative(a: seq<Write>, b: seq<Write>, c: seq<Write>)
    ensures (a + b) + c == a + (b + c)
  {
  }

  /** The ids of a sequence of Experiment handles, in order. */
  function ExperimentIdsOf(es: seq<Experiment>): (r: seq<Id>)
    ensures |r| == |es| && forall k :: 0 <= k < |es| ==> r[k] == es[k].id
  {
    seq(|es|, k requires 0 <= k < |es| => es[k].id)
  }

  /** The ids of a sequence of ClinicalTest handles, in order. */
  function ClinicalTestIdsOf(cs: seq<ClinicalTest>): (r: seq<Id>)
    ensures |r| == |cs| && forall k :: 0 <= k < |cs| ==> r[k] == cs[k].id
  {
    seq(|cs|, k requires 0 <= k < |cs| => cs[k].id)
  }

  class Experiment {
    const id: Id
    var clinicalTestIds: seq<Id>

    constructor (id: Id, clinicalTestIds: seq<Id>)
      ensures this.id == id && this.clinicalTestIds == clinicalTestIds
    {
      this.id := id;
      this.clinicalTestIds := clinicalTestIds;
    }

    /** Upserts this Experiment's document with the handle's current list. */
    method SaveToDatabase(db: Database)
      modifies db
      ensures db.experiments == old(db.experiments)[id := clinicalTestIds]
      ensures db.clinicalTests == old(db.clinicalTests)
      ensures db.writes == old(db.writes) + [SaveExperiment(id, clinicalTestIds)]
    {
      db.experiments := db.experiments[id := clinicalTestIds];
      db.writes := db.writes + [SaveExperiment(id, clinicalTestIds)];
    }

    /** Deletes this Experiment's document; a document the store does not hold is an error. */
    method RemoveFromDatabase(db: Database) returns (r: Outcome)
      modifies db
      ensures r.Pass? <==> old(id in db.experiments)
      ensures r.Pass? ==> db.experiments == old(db.experiments) - {id}
      ensures r.Pass? ==> db.writes == old(db.writes) + [RemoveExperiment(id)]
      ensures r.Fail? ==> r.error == NotFound(id) && unchanged(db)
      ensures db.clinicalTests == old(db.clinicalTests)
    {
      if id in db.experiments {
        db.experiments := db.experiments - {id};
        db.writes := db.writes + [RemoveExperiment(id)];
        r := Pass;
      } else {
        r := Fail(NotFound(id));
      }
    }

    /**
     * The ClinicalTests related to this Experiment, as new handles loaded from the store:
     * one for each id of the list that the store holds, each exactly once, in an order
     * the store chooses.
     */
    method QueryClinicalTests(db: Database) returns (cs: seq<ClinicalTest>)
      ensures NoDup(ClinicalTestIdsOf(cs))
      ensures Elems(ClinicalTestIdsOf(cs)) == Elems(clinicalTestIds) * db.clinicalTests.Keys
      ensures forall k :: 0 <= k < |cs| ==>
        && fresh(cs[k])
        && cs[k].id in db.clinicalTests
        && cs[k].experimentIds == db.clinicalTests[cs[k].id]
    {
      cs := [];
      var rest := Elems(clinicalTestIds) * db.clinicalTests.Keys;
      while rest != {}
        invariant rest <= Elems(clinicalTestIds) * db.clinicalTests.Keys
        invariant NoDup(ClinicalTestIdsOf(cs))
        invariant Elems(ClinicalTestIdsOf(cs)) == Elems(clinicalTestIds) * db.clinicalTests.Keys - rest
        invariant forall k :: 0 <= k < |cs| ==>
          && fresh(cs[k])
          && cs[k].id in db.clinicalTests
          && cs[k].experimentIds == db.clinicalTests[cs[k].id]
        decreases rest
      {
        var id :| id in rest;
        var c := new ClinicalTest(id, db.clinicalTests[id]);
        assert id !in ClinicalTestIdsOf(cs);
        NoDupAppend(ClinicalTestIdsOf(cs), id);
        assert ClinicalTestIdsOf(cs + [c]) == ClinicalTestIdsOf(cs) + [id];
        assert Elems(ClinicalTestIdsOf(cs) + [id]) == Elems(ClinicalTestIdsOf(cs)) + {id};
        cs := cs + [c];
        rest := rest - {id};
      }
    }
  }

  class ClinicalTest {
    const id: Id
    var experimentIds: seq<Id>

    constructor (id: Id, experimentIds: seq<Id>)
      ensures this.id == id && this.experimentIds == experimentIds
    {
      this.id := id;
      this.experimentIds := experimentIds;
    }

    /** Upserts this ClinicalTest's document with the handle's current list. */
    method SaveToDatabase(db: Database)
      modifies db
      ensures db.clinicalTests == old(db.clinicalTests)[id := experimentIds]
      ensures db.experiments == old(db.experiments)
      ensures db.writes == old(db.writes) + [SaveClinicalTest(id, experimentIds)]
    {
      db.clinicalTests := db.clinicalTests[id := experimentIds];
      db.writes := db.writes + [SaveClinicalTest(id, experimentIds)];
    }

    /** Deletes this ClinicalTest's document; a document the store does not hold is an error. */
    method RemoveFromDatabase(db: Database) returns (r: Outcome)
      modifies db
      ensures r.Pass? <==> old(id in db.clinicalTests)
      ensures r.Pass? ==> db.clinicalTests == old(db.clinicalTests) - {id}
      ensures r.Pass? ==> db.writes == old(db.writes) + [RemoveClinicalTest(id)]
      ensures r.Fail? ==> r.error == NotFound(id) && unchanged(db)
      ensures db.experiments == old(db.experiments)
    {
      if id in db.clinicalTests {
        db.clinicalTests := db.clinicalTests - {id};
        db.writes := db.writes + [RemoveClinicalTest(id)];
        r := Pass;
      } else {
        r := Fail(NotFound(id));
      }
    }
  }
}
