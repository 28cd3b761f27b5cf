/**
 * The relationship-integrity manager: links and unlinks Experiments and ClinicalTests
 * by editing the id lists of both handles and saving or removing documents one at a
 * time, in the order the operations below fix, and cascades deletions.
 */
module ExperimentManager {
  import opened IdLists
  import opened Relation
  import opened Documents

  /**
   * The search with an empty term, which matches every Experiment: a new handle for
   * each stored Experiment, each exactly once, in an order the store chooses.
   */
  method QueryExperiments(db: Database) returns (es: seq<Experiment>)
    ensures NoDup(ExperimentIdsOf(es)) && Elems(ExperimentIdsOf(es)) == db.experiments.Keys
    ensures forall k :: 0 <= k < |es| ==>
      && fresh(es[k])
      && es[k].id in db.experiments
      && es[k].clinicalTestIds == db.experiments[es[k].id]
  {
    es := [];
    var rest := db.experiments.Keys;
    while rest != {}
      invariant rest <= db.experiments.Keys
      invariant NoDup(ExperimentIdsOf(es))
      invariant Elems(ExperimentIdsOf(es)) == db.experiments.Keys - rest
      invariant forall k :: 0 <= k < |es| ==>
        && fresh(es[k])
        && es[k].id in db.experiments
        && es[k].clinicalTestIds == db.experiments[es[k].id]
      decreases rest
    {
      var id :| id in rest;
      var e := new Experiment(id, db.experiments[id]);
      assert id !in ExperimentIdsOf(es);
      NoDupAppend(ExperimentIdsOf(es), id);
      assert ExperimentIdsOf(es + [e]) == ExperimentIdsOf(es) + [id];
      assert Elems(ExperimentIdsOf(es) + [id]) == Elems(ExperimentIdsOf(es)) + {id};
      es := es + [e];
      rest := rest - {id};
    }
  }

  /**
   * Unlinks the pair: the Experiment drops the ClinicalTest's id and is saved first;
   * then the ClinicalTest drops the Experiment's id and is deleted if that leaves its
   * list empty (the orphan rule), saved otherwise.
   */
  method Disassociate(db: Database, experiment: Experiment, clinicalTest: ClinicalTest) returns (r: Outcome)
    modifies db, experiment, clinicalTest
    ensures experiment.clinicalTestIds == RemoveFirst(old(experiment.clinicalTestIds), clinicalTest.id)
    ensures clinicalTest.experimentIds == RemoveFirst(old(clinicalTest.experimentIds), experiment.id)
    ensures db.experiments == old(db.experiments)[experiment.id := experiment.clinicalTestIds]
    ensures db.clinicalTests == SaveOrRemove(old(db.clinicalTests), clinicalTest.id, clinicalTest.experimentIds)
    ensures r.Fail? <==> clinicalTest.experimentIds == [] && old(clinicalTest.id !in db.clinicalTests)
    ensures r.Fail? ==> r.error == NotFound(clinicalTest.id)
    ensures db.writes == old(db.writes) + [SaveExperiment(experiment.id, experiment.clinicalTestIds)] +
      if clinicalTest.experimentIds != [] then [SaveClinicalTest(clinicalTest.id, clinicalTest.experimentIds)]
      else if r.Pass? then [RemoveClinicalTest(clinicalTest.id)]
      else []
    ensures old(db.MirrorsExperiment(experiment) && db.MirrorsClinicalTest(clinicalTest)) ==>
      && db.MirrorsExperiment(experiment) && db.MirrorsClinicalTest(clinicalTest)
      && db.State() == Disassociated(old(db.State()), experiment.id, clinicalTest.id)
      && (r.Pass? <==> old(clinicalTest.id in db.clinicalTests))
  {
    experiment.clinicalTestIds := RemoveFirst(experiment.clinicalTestIds, clinicalTest.id);
    experiment.SaveToDatabase(db);

    clinicalTest.experimentIds := RemoveFirst(clinicalTest.experimentIds, experiment.id);

    if clinicalTest.experimentIds == [] {
      r := clinicalTest.RemoveFromDatabase(db);
    } else {
      clinicalTest.SaveToDatabase(db);
      r := Pass;
    }
  }

  /**
   * Links the pair unless the Experiment already names the ClinicalTest, in which case
   * nothing changes and nothing is written. Otherwise the Experiment gets the
   * ClinicalTest's id and is saved, and only then the ClinicalTest gets the
   * Experiment's id and is saved.
   */
  method Associate(db: Database, experiment: Experiment, clinicalTest: ClinicalTest)
    modifies db, experiment, clinicalTest
    ensures old(clinicalTest.id in experiment.clinicalTestIds) ==> unchanged(db, experiment, clinicalTest)
    ensures old(clinicalTest.id !in experiment.clinicalTestIds) ==>
      && experiment.clinicalTestIds == old(experiment.clinicalTestIds) + [clinicalTest.id]
      && clinicalTest.experimentIds == old(clinicalTest.experimentIds) + [experiment.id]
      && db.experiments == old(db.experiments)[experiment.id := experiment.clinicalTestIds]
      && db.clinicalTests == old(db.clinicalTests)[clinicalTest.id := clinicalTest.experimentIds]
      && db.writes == old(db.writes) + [SaveExperiment(experiment.id, experiment.clinicalTestIds),
                                        SaveClinicalTest(clinicalTest.id, clinicalTest.experimentIds)]
    ensures old(db.MirrorsExperiment(experiment) && db.MirrorsClinicalTest(clinicalTest)) ==>
      && db.MirrorsExperiment(experiment) && db.MirrorsClinicalTest(clinicalTest)
      && db.State() == Associated(old(db.State()), experiment.id, clinicalTest.id)
    ensures old(db.MirrorsExperiment(experiment) && db.MirrorsClinicalTest(clinicalTest) && Valid(db.State())) ==>
      Valid(db.State())
  {
    ghost var s0 := db.State();
    ghost var mirrored := db.MirrorsExperiment(experiment) && db.MirrorsClinicalTest(clinicalTest);

    if clinicalTest.id !in experiment.clinicalTestIds {
      experiment.clinicalTestIds := experiment.clinicalTestIds + [clinicalTest.id];
      experiment.SaveToDatabase(db);

      clinicalTest.experimentIds := clinicalTest.experimentIds + [experiment.id];
      clinicalTest.SaveToDatabase(db);
    }

    if mirrored && Valid(s0) {
      AssociatedValid(s0, experiment.id, clinicalTest.id);
    }
  }

  // ---------------------------------------------------------------------------
  // The writes of the DeleteExperiment cascade

  /**
   * The writes of the cascade's turn for ClinicalTest x, given the ClinicalTest map m:
   * Experiment e saved with the ids it still names, then x saved without e, or removed
   * when e was its last Experiment.
   */
  function DetachStep(m: map<Id, seq<Id>>, e: Id, x: Id, rest: seq<Id>): (r: seq<Write>)
    ensures |r| == 2 && r[0] == SaveExperiment(e, rest)
    ensures r[1] == RemoveClinicalTest(x) || (r[1].SaveClinicalTest? && r[1].id == x && r[1].experimentIds != [])
  {
    var left := RemoveFirst(if x in m then m[x] else [], e);
    [SaveExperiment(e, rest)] + if left == [] then [RemoveClinicalTest(x)] else [SaveClinicalTest(x, left)]
  }

  /**
   * The writes of the cascade's first n turns, which visit the ClinicalTests cs in that
   * order, starting from e's list L: after a turn e names what L names outside the
   * ClinicalTests visited so far.
   */
  function DetachWrites(m: map<Id, seq<Id>>, e: Id, L: seq<Id>, cs: seq<Id>, n: nat): (r: seq<Write>)
    requires n <= |cs|
    ensures |r| == 2 * n
  {
    if n == 0 then [] else DetachWrites(m, e, L, cs, n - 1) + DetachStep(m, e, cs[n - 1], Without(L, cs[..n]))
  }

  /** One more turn appends its writes. */
  lemma DetachWritesNext(m: map<Id, seq<Id>>, e: Id, L: seq<Id>, cs: seq<Id>, i: nat)
    requires i < |cs|
    ensures DetachWrites(m, e, L, cs, i + 1) ==
      DetachWrites(m, e, L, cs, i) + DetachStep(m, e, cs[i], Without(L, cs[..i + 1]))
  {
  }

  /**
   * The loop of DeleteExperiment: disassociates the Experiment from each loaded
   * ClinicalTest in turn, in the order the lookup returned them. Each ClinicalTest loses
   * the Experiment (and leaves the store if that was its last one); the Experiment ends
   * up naming nothing. The write log grows by DetachWrites: each turn commits the
   * Experiment before the ClinicalTest. The loaded ClinicalTest handles are changed too;
   * DeleteExperiment discards them, so their final lists are not specified.
   */
  method DisassociateEach(db: Database, experiment: Experiment, clinicalTests: seq<ClinicalTest>)
    requires NoDup(experiment.clinicalTestIds) && db.MirrorsExperiment(experiment)
    requires NoDup(ClinicalTestIdsOf(clinicalTests))
    requires Elems(ClinicalTestIdsOf(clinicalTests)) == Elems(experiment.clinicalTestIds)
    requires forall k :: 0 <= k < |clinicalTests| ==>
      clinicalTests[k].id in db.clinicalTests && clinicalTests[k].experimentIds == db.clinicalTests[clinicalTests[k].id]
    modifies db, experiment, clinicalTests
    ensures experiment.clinicalTestIds == []
    ensures db.experiments ==
      if old(experiment.clinicalTestIds) == [] then old(db.experiments) else old(db.experiments)[experiment.id := []]
    ensures db.clinicalTests == DetachAll(old(db.clinicalTests), experiment.id, ClinicalTestIdsOf(clinicalTests))
    ensures db.writes == old(db.writes) +
      DetachWrites(old(db.clinicalTests), experiment.id, old(experiment.clinicalTestIds),
                   ClinicalTestIdsOf(clinicalTests), |clinicalTests|)
  {
    ghost var s0 := db.State();
    ghost var w0 := db.writes;
    ghost var L0 := experiment.clinicalTestIds;
    ghost var cs := ClinicalTestIdsOf(clinicalTests);
    assert cs[..0] == [];
    WithoutNone(L0);
    assert L0 != [] ==> s0.experiments[experiment.id := L0] == s0.experiments;

    var i := 0;
    while i < |clinicalTests|
      invariant 0 <= i <= |clinicalTests|
      invariant experiment.clinicalTestIds == Without(L0, cs[..i])
      invariant db.experiments == if L0 == [] then s0.experiments else s0.experiments[experiment.id := Without(L0, cs[..i])]
      invariant db.clinicalTests == DetachAll(s0.clinicalTests, experiment.id, cs[..i])
      invariant db.writes == w0 + DetachWrites(s0.clinicalTests, experiment.id, L0, cs, i)
      invariant forall k :: i <= k < |clinicalTests| ==> clinicalTests[k].experimentIds == s0.clinicalTests[cs[k]]
    {
      forall k | i < k < |clinicalTests| ensures clinicalTests[k] != clinicalTests[i] {
        NoDupAt(cs, i, k);
      }
      assert clinicalTests[i].id == cs[i] && cs[i] in Elems(L0);
      DetachWritesNext(s0.clinicalTests, experiment.id, L0, cs, i);
      DetachTurn(db, experiment, clinicalTests[i], i, s0, L0, cs, w0, DetachWrites(s0.clinicalTests, experiment.id, L0, cs, i));
      i := i + 1;
    }
    assert cs[..i] == cs;
    WithoutMembers(L0, cs);
    forall y ensures y !in experiment.clinicalTestIds {
      assert y in L0 ==> y in Elems(L0);
    }
    NoMembersEmpty(experiment.clinicalTestIds);
  }

  /** The body of DisassociateEach's loop: the turn for the ClinicalTest at position i. */
  method DetachTurn(db: Database, experiment: Experiment, clinicalTest: ClinicalTest, i: nat,
                    ghost s0: Store, ghost L0: seq<Id>, ghost cs: seq<Id>, ghost w0: seq<Write>, ghost done: seq<Write>)
    requires i < |cs| && NoDup(cs) && NoDup(L0) && clinicalTest.id == cs[i] && cs[i] in L0
    requires cs[i] in s0.clinicalTests && clinicalTest.experimentIds == s0.clinicalTests[cs[i]]
    requires experiment.clinicalTestIds == Without(L0, cs[..i]) && L0 != []
    requires db.experiments == s0.experiments[experiment.id := Without(L0, cs[..i])]
    requires db.clinicalTests == DetachAll(s0.clinicalTests, experiment.id, cs[..i])
    requires db.writes == w0 + done
    modifies db, experiment, clinicalTest
    ensures experiment.clinicalTestIds == Without(L0, cs[..i + 1])
    ensures db.experiments == s0.experiments[experiment.id := Without(L0, cs[..i + 1])]
    ensures db.clinicalTests == DetachAll(s0.clinicalTests, experiment.id, cs[..i + 1])
    ensures db.writes == w0 + (done + DetachStep(s0.clinicalTests, experiment.id, cs[i], Without(L0, cs[..i + 1])))
  {
    DetachAllNext(s0.clinicalTests, experiment.id, cs, i);
    PrefixNext(cs, i);
    RemoveFirstWithout(L0, cs[..i], cs[i]);
    ghost var before := db.writes;
    var outcome := Disassociate(db, experiment, clinicalTest);
    assert outcome.Pass?;
    SavedTwice(s0.experiments, experiment.id, Without(L0, cs[..i]), Without(L0, cs[..i + 1]));
    ghost var rest, left := Without(L0, cs[..i + 1]), clinicalTest.experimentIds;
    ghost var step := DetachStep(s0.clinicalTests, experiment.id, cs[i], rest);
    assert step == [SaveExperiment(experiment.id, rest)] +
      if left != [] then [SaveClinicalTest(cs[i], left)] else [RemoveClinicalTest(cs[i])];
    assert db.writes == before + step;
    AppendAssociative(w0, done, step);
  }

  /**
   * Disassociates the Experiment from each ClinicalTest it names, one at a time, in an
   * order the store chooses, then removes the Experiment; the removal fails only for an
   * Experiment the store does not hold. Starting from a list without duplicates whose
   * ClinicalTests are all stored (which ValidCascadeExperiment derives from the
   * invariants), no step fails before the last, and the store ends up as
   * ExperimentDeleted describes, whatever the order.
   */
  method DeleteExperiment(db: Database, experiment: Experiment) returns (r: Outcome)
    requires db.MirrorsExperiment(experiment)
    requires NoDup(experiment.clinicalTestIds)
    requires forall x :: x in experiment.clinicalTestIds ==> x in db.clinicalTests
    modifies db, experiment
    ensures r.Pass? <==> old(experiment.id in db.experiments)
    ensures db.State() == ExperimentDeleted(old(db.State()), experiment.id)
    ensures r.Fail? ==> r.error == NotFound(experiment.id) && db.State() == old(db.State())
    ensures exists cs ::
              && NoDup(cs) && Elems(cs) == Elems(old(experiment.clinicalTestIds))
              && db.writes == old(db.writes) +
                 DetachWrites(old(db.clinicalTests), experiment.id, old(experiment.clinicalTestIds), cs, |cs|) +
                 if r.Pass? then [RemoveExperiment(experiment.id)] else []
    ensures experiment.clinicalTestIds == []
  {
    ghost var s0 := db.State();
    ghost var w0 := db.writes;
    ghost var L0 := experiment.clinicalTestIds;
    var clinicalTests := experiment.QueryClinicalTests(db);
    ghost var cs := ClinicalTestIdsOf(clinicalTests);
    assert Elems(L0) * s0.clinicalTests.Keys == Elems(L0);
    DisassociateEach(db, experiment, clinicalTests);
    DetachAllDetached(s0.clinicalTests, experiment.id, cs);
    ghost var detached := db.writes;
    r := experiment.RemoveFromDatabase(db);
    if r.Pass? {
      assert s0.experiments[experiment.id := []] - {experiment.id} == s0.experiments - {experiment.id};
    } else {
      ExperimentDeletedMissing(s0, experiment.id);
    }
    assert db.writes == detached + if r.Pass? then [RemoveExperiment(experiment.id)] else [];
  }

  // ---------------------------------------------------------------------------
  // The writes of the DeleteClinicalTest scan

  /**
   * The writes one scan step issues for Experiment x, given the Experiment map m and the
   * ClinicalTest's current list: none when x's list does not name c; otherwise the
   * Experiment saved without c, then c saved with x taken off, or removed once empty.
   */
  function StepWrites(m: map<Id, seq<Id>>, c: Id, list: seq<Id>, x: Id): seq<Write> {
    if x in m && c in m[x] then
      var rest := RemoveFirst(list, x);
      [SaveExperiment(x, RemoveFirst(m[x], c))] +
      if rest == [] then [RemoveClinicalTest(c)] else [SaveClinicalTest(c, rest)]
    else []
  }

  /** The writes of the scan over the Experiments xs, in order, from map m and list C0. */
  function ScanWrites(m: map<Id, seq<Id>>, c: Id, C0: seq<Id>, xs: seq<Id>): seq<Write> {
    if xs == [] then []
    else
      var front := xs[..|xs| - 1];
      ScanWrites(m, c, C0, front) + StepWrites(StripAll(m, c, front), c, Without(C0, front), xs[|xs| - 1])
  }

  /**
   * A write the scan may issue against the Experiment map m: a save of an Experiment
   * whose list named c, with c taken off, or a save or removal of c itself.
   */
  ghost predicate AllowedInScan(m: map<Id, seq<Id>>, c: Id, w: Write) {
    match w
    case SaveExperiment(x, l) => x in m && c in m[x] && l == RemoveFirst(m[x], c)
    case RemoveExperiment(_) => false
    case SaveClinicalTest(y, _) => y == c
    case RemoveClinicalTest(y) => y == c
  }

  /** One more scanned Experiment appends its step's writes. */
  lemma ScanWritesNext(m: map<Id, seq<Id>>, c: Id, C0: seq<Id>, xs: seq<Id>, i: nat)
    requires i < |xs|
    ensures ScanWrites(m, c, C0, xs[..i + 1]) ==
      ScanWrites(m, c, C0, xs[..i]) + StepWrites(StripAll(m, c, xs[..i]), c, Without(C0, xs[..i]), xs[i])
  {
    assert xs[..i + 1][..i] == xs[..i];
  }

  /**
   * The scan writes nothing but Experiments whose lists named c, each saved with c
   * taken off, and c itself; it never touches an Experiment that does not name c.
   */
  lemma {:induction false} ScanWritesOnly(m: map<Id, seq<Id>>, c: Id, C0: seq<Id>, xs: seq<Id>)
    requires NoDup(xs)
    ensures forall k :: 0 <= k < |ScanWrites(m, c, C0, xs)| ==> AllowedInScan(m, c, ScanWrites(m, c, C0, xs)[k])
  {
    if xs != [] {
      var front, x := xs[..|xs| - 1], xs[|xs| - 1];
      assert xs == front + [x];
      NoDupSplit(front, [x]);
      ScanWritesOnly(m, c, C0, front);
      StripAllOutside(m, c, front, x);
    }
  }

  /**
   * The orphan rule over the whole scan: c's removal is written exactly when c had
   * Experiments and the scan took away all of them, and then only as the last write.
   */
  lemma {:induction false} ScanWritesRemoval(m: map<Id, seq<Id>>, c: Id, C0: seq<Id>, xs: seq<Id>)
    requires NoDup(xs) && NoDup(C0)
    requires forall x :: x in C0 ==> x in m
    requires forall x :: x in m ==> (c in m[x] <==> x in C0)
    ensures RemoveClinicalTest(c) in ScanWrites(m, c, C0, xs) <==> C0 != [] && Without(C0, xs) == []
    ensures forall k :: 0 <= k < |ScanWrites(m, c, C0, xs)| - 1 ==> ScanWrites(m, c, C0, xs)[k] != RemoveClinicalTest(c)
  {
    if xs == [] {
      WithoutNone(C0);
    } else {
      var front, x := xs[..|xs| - 1], xs[|xs| - 1];
      assert xs == front + [x];
      NoDupSplit(front, [x]);
      ScanWritesRemoval(m, c, C0, front);
      StripAllOutside(m, c, front, x);
      var left := Without(C0, front);
      RemoveFirstWithout(C0, front, x);
      WithoutKeeps(C0, front, x);
      var step := StepWrites(StripAll(m, c, front), c, left, x);
      assert x in m && c in m[x] <==> x in left;
      if left == [] {
        assert step == [];
      } else {
        assert RemoveClinicalTest(c) in step <==> Without(C0, xs) == [];
        assert forall k :: 0 <= k < |step| - 1 ==> step[k] != RemoveClinicalTest(c);
      }
    }
  }

  /**
   * One step of the DeleteClinicalTest scan: disassociates the pair when the Experiment's
   * list names the ClinicalTest, and does nothing otherwise. The ClinicalTest map stays
   * base with the ClinicalTest's current list saved, or removed once empty.
   */
  method DisassociateIfLinked(db: Database, experiment: Experiment, clinicalTest: ClinicalTest,
                              ghost base: map<Id, seq<Id>>) returns (r: Outcome)
    requires db.MirrorsExperiment(experiment) && experiment.id in db.experiments
    requires clinicalTest.id in experiment.clinicalTestIds <==> experiment.id in clinicalTest.experimentIds
    requires db.clinicalTests == SaveOrRemove(base, clinicalTest.id, clinicalTest.experimentIds)
    modifies db, experiment, clinicalTest
    ensures db.experiments == StripOne(old(db.experiments), clinicalTest.id, experiment.id)
    ensures clinicalTest.experimentIds == RemoveFirst(old(clinicalTest.experimentIds), experiment.id)
    ensures db.clinicalTests == SaveOrRemove(base, clinicalTest.id, clinicalTest.experimentIds)
    ensures db.writes == old(db.writes) +
      StepWrites(old(db.experiments), clinicalTest.id, old(clinicalTest.experimentIds), experiment.id)
    ensures old(clinicalTest.id !in experiment.clinicalTestIds) ==>
      unchanged(experiment, clinicalTest) && db.writes == old(db.writes)
    ensures r.Pass?
  {
    r := Pass;
    if clinicalTest.id in experiment.clinicalTestIds {
      ghost var before := clinicalTest.experimentIds;
      r := Disassociate(db, experiment, clinicalTest);
      SaveOrRemoveTwice(base, clinicalTest.id, before, clinicalTest.experimentIds);
    }
  }

  /**
   * The store and the ClinicalTest's list once the Experiments ids[..i] have been
   * scanned, starting from store s0 and list C0.
   */
  ghost predicate ScannedUpTo(db: Database, clinicalTest: ClinicalTest, s0: Store, C0: seq<Id>, ids: seq<Id>, i: nat)
    reads db, clinicalTest
    requires i <= |ids|
  {
    && db.experiments == StripAll(s0.experiments, clinicalTest.id, ids[..i])
    && clinicalTest.experimentIds == Without(C0, ids[..i])
    && db.clinicalTests == SaveOrRemove(s0.clinicalTests, clinicalTest.id, clinicalTest.experimentIds)
  }

  /**
   * The loop of DeleteClinicalTest: goes through the loaded Experiments in turn and
   * disassociates the ClinicalTest from each one whose list names it, leaving the others
   * as they are. The ClinicalTest's list loses exactly those Experiments. The write log
   * grows by ScanWrites: nothing for an Experiment that does not name the ClinicalTest.
   * The loaded Experiment handles are changed too; DeleteClinicalTest discards them, so
   * their final lists are not specified.
   */
  method DisassociateMatching(db: Database, experiments: seq<Experiment>, clinicalTest: ClinicalTest)
    requires NoDup(ExperimentIdsOf(experiments))
    requires forall k :: 0 <= k < |experiments| ==>
      && experiments[k].id in db.experiments
      && experiments[k].clinicalTestIds == db.experiments[experiments[k].id]
    requires forall x :: x in db.experiments ==>
      (clinicalTest.id in db.experiments[x] <==> x in clinicalTest.experimentIds)
    requires NoDup(clinicalTest.experimentIds) && db.MirrorsClinicalTest(clinicalTest)
    requires clinicalTest.experimentIds == [] ==> clinicalTest.id !in db.clinicalTests
    modifies db, clinicalTest, experiments
    ensures db.experiments == StripAll(old(db.experiments), clinicalTest.id, ExperimentIdsOf(experiments))
    ensures clinicalTest.experimentIds == Without(old(clinicalTest.experimentIds), ExperimentIdsOf(experiments))
    ensures db.clinicalTests == SaveOrRemove(old(db.clinicalTests), clinicalTest.id, clinicalTest.experimentIds)
    ensures db.writes == old(db.writes) +
      ScanWrites(old(db.experiments), clinicalTest.id, old(clinicalTest.experimentIds), ExperimentIdsOf(experiments))
  {
    ghost var s0 := db.State();
    ghost var w0 := db.writes;
    ghost var C0 := clinicalTest.experimentIds;
    ghost var ids := ExperimentIdsOf(experiments);
    SaveOrRemoveStored(s0.clinicalTests, clinicalTest.id, C0);
    assert ids[..0] == [];
    WithoutNone(C0);

    var i := 0;
    while i < |experiments|
      invariant 0 <= i <= |experiments|
      invariant ScannedUpTo(db, clinicalTest, s0, C0, ids, i)
      invariant db.writes == w0 + ScanWrites(s0.experiments, clinicalTest.id, C0, ids[..i])
      invariant forall k :: i <= k < |experiments| ==> experiments[k].clinicalTestIds == s0.experiments[ids[k]]
    {
      forall k | i < k < |experiments| ensures experiments[k] != experiments[i] {
        NoDupAt(ids, i, k);
      }
      ScanWritesNext(s0.experiments, clinicalTest.id, C0, ids, i);
      ScanStep(db, experiments, clinicalTest, i, s0, w0, C0, ScanWrites(s0.experiments, clinicalTest.id, C0, ids[..i]));
      i := i + 1;
    }
    assert ids[..i] == ids;
  }

  /** The body of DisassociateMatching's loop: scans the Experiment at position i. */
  method ScanStep(db: Database, experiments: seq<Experiment>, clinicalTest: ClinicalTest, i: nat,
                  ghost s0: Store, ghost w0: seq<Write>, ghost C0: seq<Id>, ghost done: seq<Write>)
    requires i < |experiments| && NoDup(ExperimentIdsOf(experiments)) && NoDup(C0)
    requires forall k :: 0 <= k < |experiments| ==> experiments[k].id in s0.experiments
    requires forall x :: x in s0.experiments ==> (clinicalTest.id in s0.experiments[x] <==> x in C0)
    requires experiments[i].clinicalTestIds == s0.experiments[experiments[i].id]
    requires ScannedUpTo(db, clinicalTest, s0, C0, ExperimentIdsOf(experiments), i)
    requires db.writes == w0 + done
    modifies db, experiments[i], clinicalTest
    ensures ScannedUpTo(db, clinicalTest, s0, C0, ExperimentIdsOf(experiments), i + 1)
    ensures db.writes == w0 + (done +
      StepWrites(StripAll(s0.experiments, clinicalTest.id, ExperimentIdsOf(experiments)[..i]), clinicalTest.id,
                 Without(C0, ExperimentIdsOf(experiments)[..i]), experiments[i].id))
  {
    var e := experiments[i];
    ghost var ids := ExperimentIdsOf(experiments);
    StripAllNext(s0.experiments, clinicalTest.id, ids, i);
    PrefixNext(ids, i);
    NoDupNotBefore(ids, i);
    WithoutKeeps(C0, ids[..i], e.id);
    RemoveFirstWithout(C0, ids[..i], e.id);
    var outcome := DisassociateIfLinked(db, e, clinicalTest, s0.clinicalTests);
    AppendAssociative(w0, done, StepWrites(old(db.experiments), clinicalTest.id, old(clinicalTest.experimentIds), e.id));
  }

  /**
   * Scans every Experiment and disassociates the ClinicalTest from each one whose list
   * names it. The ClinicalTest is never removed directly: the Disassociate that takes
   * away its last Experiment deletes it. Starting from a ClinicalTest whose list has no
   * duplicates and agrees with the Experiments' lists, and which is stored only with a
   * non-empty list (which ValidCascadeClinicalTest derives from the invariants), the
   * store ends up as ClinicalTestDeleted describes.
   */
  method DeleteClinicalTest(db: Database, clinicalTest: ClinicalTest)
    requires db.MirrorsClinicalTest(clinicalTest)
    requires NoDup(clinicalTest.experimentIds)
    requires forall x :: clinicalTest.id in ExperimentList(db.State(), x) <==> x in clinicalTest.experimentIds
    requires clinicalTest.experimentIds == [] ==> clinicalTest.id !in db.clinicalTests
    modifies db, clinicalTest
    ensures db.State() == ClinicalTestDeleted(old(db.State()), clinicalTest.id)
    ensures clinicalTest.experimentIds == []
    ensures |old(db.writes)| <= |db.writes| && db.writes[..|old(db.writes)|] == old(db.writes)
    ensures forall k :: |old(db.writes)| <= k < |db.writes| ==>
      AllowedInScan(old(db.experiments), clinicalTest.id, db.writes[k])
    ensures RemoveClinicalTest(clinicalTest.id) in db.writes[|old(db.writes)|..] <==>
      old(clinicalTest.id in db.clinicalTests)
    ensures forall k :: |old(db.writes)| <= k < |db.writes| - 1 ==> db.writes[k] != RemoveClinicalTest(clinicalTest.id)
    ensures exists ids ::
              && NoDup(ids) && Elems(ids) == old(db.experiments.Keys)
              && db.writes == old(db.writes) + ScanWrites(old(db.experiments), clinicalTest.id, old(clinicalTest.experimentIds), ids)
  {
    ghost var s0 := db.State();
    ghost var w0 := db.writes;
    ghost var C0 := clinicalTest.experimentIds;
    var experiments := QueryExperiments(db);
    ghost var ids := ExperimentIdsOf(experiments);
    assert forall x :: x in s0.experiments ==> (clinicalTest.id in s0.experiments[x] <==> x in C0) by {
      forall x | x in s0.experiments ensures clinicalTest.id in s0.experiments[x] <==> x in C0 {
        assert ExperimentList(s0, x) == s0.experiments[x];
      }
    }
    assert forall y :: y in C0 ==> y in s0.experiments by {
      forall y | y in C0 ensures y in s0.experiments {
        assert clinicalTest.id in ExperimentList(s0, y);
      }
    }
    DisassociateMatching(db, experiments, clinicalTest);
    StripAllStripped(s0.experiments, clinicalTest.id, ids);
    WithoutMembers(C0, ids);
    NoMembersEmpty(clinicalTest.experimentIds);
    ghost var scan := ScanWrites(s0.experiments, clinicalTest.id, C0, ids);
    assert db.writes[|w0|..] == scan;
    ScanWritesOnly(s0.experiments, clinicalTest.id, C0, ids);
    ScanWritesRemoval(s0.experiments, clinicalTest.id, C0, ids);
    assert C0 != [] <==> clinicalTest.id in s0.clinicalTests;
  }
}
