# Experiment / ClinicalTest relationship manager

A Dafny model of the relationship-integrity manager of the P3 project
(`ExperimentManager`). The manager keeps a many-to-many link between Experiment and
ClinicalTest documents in a document store that has no foreign keys. Each
Experiment carries the ids of its ClinicalTests (`ClinicalTestIds`). Each ClinicalTest
carries the ids of its Experiments (`ExperimentIds`). The manager edits both lists by
hand and saves or removes documents one at a time.

The model has four modules:

- `IdLists` (`id_lists.dfy`) models the id lists. `RemoveFirst` is C#'s `List.Remove`,
  which drops only the first occurrence. `NoDup` says no id occurs twice. `Without`
  describes what a handle's list looks like after a loop has taken some ids off it.
- `Relation` (`relation.dfy`) holds the durable state as a value, `Store` (two maps
  from document id to id list). It defines the three integrity invariants:
  - `Consistent`: C is in E's list exactly when E is in C's list;
  - `NoOrphans`: a stored ClinicalTest has a non-empty list;
  - `NoDuplicates`: no stored list holds an id twice.

  It states the store each operation produces (`Associated`, `Disassociated`,
  `ExperimentDeleted`, `ClinicalTestDeleted`) and proves what those stores satisfy.
- `Documents` (`documents.dfy`) holds the store as a class, `Database`. It has the two
  maps and a ghost log of the writes applied, in order. The in-memory handles are the
  classes `Experiment` and `ClinicalTest`. Their lists change in place and reach the
  store only through `SaveToDatabase` or `RemoveFromDatabase`. Removing a document the
  store does not hold is an error (`NotFound`).
- `ExperimentManager` (`manager.dfy`) holds the operations as methods that mutate handles
  and the store in the order the source does. Each operation is proved against the
  `Relation` function for it. The two `foreach` loops are separate methods with loop
  invariants: `DisassociateEach` for DeleteExperiment, and `DisassociateMatching` with
  its body `DisassociateIfLinked` for DeleteClinicalTest.

A handle *mirrors* the store when its list equals the stored list. A handle for a
document the store does not hold mirrors it when its list is empty. The state
equations for Associate and Disassociate hold for mirroring handles. Invariant
preservation then follows from the lemmas over `Store`.

## Model

| member | source | states |
|---|---|---|
| IdLists.RemoveFirst | src/Data/Database/Models/ExperimentManager.cs:38 | `List.Remove` shortens the list by one exactly when it holds the id, and returns an id-free list unchanged |
| IdLists.RemoveFirstAtFirst | src/Data/Database/Models/ExperimentManager.cs:38 | `List.Remove` cuts out the first occurrence: when the id sits at a position and not before it, the result is the ids before that position followed by the ids after it, in order |
| IdLists.RemoveFirstMultiset | src/Data/Database/Models/ExperimentManager.cs:41 | removal takes away exactly one occurrence of the id, if there is one, and nothing else |
| IdLists.RemoveFirstMembers | src/Data/Database/Models/ExperimentManager.cs:38 | every other id survives a removal, and no id appears |
| IdLists.RemoveFirstNoDup | src/Data/Database/Models/ExperimentManager.cs:41 | on a list without duplicates, removal keeps it duplicate-free and removes the id entirely, so it behaves as set removal |
| IdLists.RemoveFirstAppended | src/Data/Database/Models/ExperimentManager.cs:57 | removing an id just added (`Add`) to a list that lacked it gives the original list back |
| IdLists.RemoveFirstEmpty | src/Data/Database/Models/ExperimentManager.cs:43 | a removal leaves a list empty exactly when the list was empty or held only that id |
| IdLists.NoDupAppend | src/Data/Database/Models/ExperimentManager.cs:55-57 | adding an id the list lacks, as the guard ensures, keeps the list duplicate-free |
| IdLists.NoDupOnce | src/Data/Database/Models/ExperimentManager.cs:55 | in a list without duplicates a held id occurs exactly once |
| IdLists.WithoutMembers | src/Data/Database/Models/ExperimentManager.cs:80-86 | after the scan, an Experiment id remains on the ClinicalTest exactly when it was there and was not scanned |
| IdLists.RemoveFirstWithout | src/Data/Database/Models/ExperimentManager.cs:84 | on a duplicate-free list, one more removal from the shared ClinicalTest handle equals leaving out one more scanned id |
| IdLists.WithoutAbsent | src/Data/Database/Models/ExperimentManager.cs:82-85 | scanning an Experiment the ClinicalTest does not list leaves its list as it is |
| Relation.SaveOrRemove | src/Data/Database/Models/ExperimentManager.cs:43-50 | the orphan rule as a map update: C is saved with its shortened list, or deleted from the map when that list is empty |
| Relation.SaveOrRemoveTwice | src/Data/Database/Models/ExperimentManager.cs:43-50 | only the last save-or-remove of a ClinicalTest decides its store entry |
| Relation.SaveOrRemoveStored | src/Data/Database/Models/ExperimentManager.cs:43-50 | saving a ClinicalTest with its stored list, or applying the orphan rule to one not stored, changes nothing |
| Relation.AssociatedValid | src/Data/Database/Models/ExperimentManager.cs:53-63 | from a valid store, Associate ends in a store that is still consistent, orphan-free and duplicate-free |
| Relation.Associated | src/Data/Database/Models/ExperimentManager.cs:53-63 | afterwards E names C; when E did not name C before, C names E; every other Experiment's and ClinicalTest's list is as before |
| Relation.AssociatedTwice | src/Data/Database/Models/ExperimentManager.cs:53-55 | a second identical Associate changes nothing; each side holds the other's id exactly once; every other list is untouched |
| Relation.DisassociatedLists | src/Data/Database/Models/ExperimentManager.cs:36-51 | Disassociate takes C off E's list and E off C's list; every other list is unchanged |
| Relation.Disassociated | src/Data/Database/Models/ExperimentManager.cs:36-51 | E stays stored; C stays stored exactly when taking E off its list leaves something; every other Experiment's and ClinicalTest's list is as before |
| Relation.DisassociatedValid | src/Data/Database/Models/ExperimentManager.cs:36-51 | from a valid store, Disassociate keeps all three invariants, and afterwards neither side names the other |
| Relation.DisassociatedOrphan | src/Data/Database/Models/ExperimentManager.cs:41-50 | orphan rule: C leaves the store exactly when E was the only Experiment on its list |
| Relation.DisassociatedUnlinked | src/Data/Database/Models/ExperimentManager.cs:38-49 | disassociating a stored pair that is not linked leaves a valid store as it was |
| Relation.AssociateDisassociate | src/Data/Database/Models/ExperimentManager.cs:36-63 | round trip on a fresh pair: Associate then Disassociate gives E its original list back, and C is no longer stored |
| Relation.DetachOneDetached | src/Data/Database/Models/ExperimentManager.cs:70 | one more Disassociate in the DeleteExperiment loop adds that ClinicalTest to the set detached from E |
| Relation.DetachAllOutside | src/Data/Database/Models/ExperimentManager.cs:68-71 | a ClinicalTest the loop has not reached yet keeps its original entry |
| Relation.DetachAllNext | src/Data/Database/Models/ExperimentManager.cs:68-71 | each loop turn meets its ClinicalTest with its original stored list |
| Relation.DetachAllDetached | src/Data/Database/Models/ExperimentManager.cs:68-71 | disassociating the ClinicalTests one by one, in any order, gives the same map as detaching them all at once |
| Relation.ExperimentDeletedMissing | src/Data/Database/Models/ExperimentManager.cs:72 | deleting an Experiment the store does not hold leaves the store as it was |
| Relation.ValidCascadeExperiment | src/Data/Database/Models/ExperimentManager.cs:67-71 | in a valid store, an Experiment's list is duplicate-free and names only stored ClinicalTests, which is what DeleteExperiment requires |
| Relation.ExperimentDeletedValid | src/Data/Database/Models/ExperimentManager.cs:65-73 | from a valid store, DeleteExperiment keeps all three invariants |
| Relation.ExperimentDeleted | src/Data/Database/Models/ExperimentManager.cs:65-73 | E is gone; every other Experiment keeps its list; a ClinicalTest that E did not name keeps its list; no ClinicalTest is added |
| Relation.ExperimentDeletedEffects | src/Data/Database/Models/ExperimentManager.cs:65-73 | the cascade removes E and every ClinicalTest linked only to E; other ClinicalTests keep their other ids; unrelated documents are untouched; no ClinicalTest names E afterwards |
| Relation.StripAllOutside | src/Data/Database/Models/ExperimentManager.cs:80-86 | an Experiment the scan has not reached yet keeps its original entry |
| Relation.StripAllNext | src/Data/Database/Models/ExperimentManager.cs:80-86 | each scan turn meets its Experiment with its original stored list |
| Relation.StripOneStripped | src/Data/Database/Models/ExperimentManager.cs:82-85 | one more scan step, which disassociates only when the list names C, adds that Experiment to the set stripped of C |
| Relation.StripAllStripped | src/Data/Database/Models/ExperimentManager.cs:80-86 | scanning the Experiments one by one, in any order, gives the same map as stripping C from them all at once |
| Relation.ValidCascadeClinicalTest | src/Data/Database/Models/ExperimentManager.cs:79-86 | in a valid store, a ClinicalTest's list is duplicate-free, names exactly the Experiments that name it, and is empty only for an unstored ClinicalTest, which is what DeleteClinicalTest requires |
| Relation.ClinicalTestDeletedValid | src/Data/Database/Models/ExperimentManager.cs:75-87 | from a valid store, DeleteClinicalTest keeps all three invariants |
| Relation.ClinicalTestDeleted | src/Data/Database/Models/ExperimentManager.cs:75-87 | C is gone; the same Experiments stay stored; every other ClinicalTest keeps its list; an Experiment that did not name C keeps its list |
| Relation.ClinicalTestDeletedEffects | src/Data/Database/Models/ExperimentManager.cs:75-87 | C is gone and no Experiment names it; Experiments that did not name C keep their lists; the others keep their other ids; other ClinicalTests are untouched |
| Documents.Experiment.SaveToDatabase | src/Data/Database/Models/ExperimentManager.cs:39 | upserts the Experiment's entry with the handle's list, touches nothing else, and logs one SaveExperiment write |
| Documents.Experiment.RemoveFromDatabase | src/Data/Database/Models/ExperimentManager.cs:72 | deletes the Experiment's entry and logs the removal when it is stored; otherwise reports NotFound and changes nothing |
| Documents.Experiment.QueryClinicalTests | src/Data/Database/Models/ExperimentManager.cs:67 | one fresh handle for each listed ClinicalTest that the store holds, each exactly once, in an order the store chooses, each loaded with its stored list |
| Documents.ClinicalTest.SaveToDatabase | src/Data/Database/Models/ExperimentManager.cs:49 | upserts the ClinicalTest's entry with the handle's list, touches nothing else, and logs one SaveClinicalTest write |
| Documents.ClinicalTest.RemoveFromDatabase | src/Data/Database/Models/ExperimentManager.cs:45 | deletes the ClinicalTest's entry and logs the removal when it is stored; otherwise reports NotFound and changes nothing |
| ExperimentManager.QueryExperiments | src/Data/Database/Models/ExperimentManager.cs:7-32 | with the empty term: one fresh handle per stored Experiment, each exactly once, each loaded with its stored list |
| ExperimentManager.Disassociate | src/Data/Database/Models/ExperimentManager.cs:36-51 | E loses C and is saved first. Then C loses E and is removed when its list is empty, saved otherwise. The write log has exactly that order. It fails only when removing an unstored C. With mirroring handles the store becomes `Disassociated` and the handles still mirror it |
| ExperimentManager.Associate | src/Data/Database/Models/ExperimentManager.cs:53-63 | guarded: if E already names C, nothing changes and nothing is written. Otherwise E gets C and is saved, then C gets E and is saved, in that order. With mirroring handles the store becomes `Associated` and validity is kept |
| ExperimentManager.DetachStep | src/Data/Database/Models/ExperimentManager.cs:36-51 | one cascade turn writes exactly two documents: first E, saved with the ids it still names, then the turn's ClinicalTest, either removed or saved with a non-empty list |
| ExperimentManager.DetachWrites | src/Data/Database/Models/ExperimentManager.cs:68-71 | the cascade's log over the first n visited ClinicalTests, two writes per turn, in visiting order |
| ExperimentManager.DisassociateEach | src/Data/Database/Models/ExperimentManager.cs:68-71 | the loop empties E's list, whatever order the handles come in. E's entry is saved as empty when it named anything. The ClinicalTest map is the fold `DetachAll` over the handles' ids. The log grows by exactly `DetachWrites` in handle order: per ClinicalTest, E saved first with the ids it still names, then that ClinicalTest saved without E or removed once empty |
| ExperimentManager.DetachTurn | src/Data/Database/Models/ExperimentManager.cs:69-71 | one turn of the loop: E's handle and entry lose the turn's ClinicalTest (`Without` one more id), the ClinicalTest map takes one more `DetachAll` step, and the log grows by that turn's `DetachStep` |
| ExperimentManager.DeleteExperiment | src/Data/Database/Models/ExperimentManager.cs:65-73 | the store becomes `ExperimentDeleted`, whatever order the lookup returns. It succeeds exactly when E was stored. For some duplicate-free ordering of E's list, the log grows by exactly `DetachWrites` over it, then E's removal when the removal succeeds. Otherwise it reports NotFound and the store is as before |
| ExperimentManager.StepWrites | src/Data/Database/Models/ExperimentManager.cs:82-85 | the writes of one scan turn: none when the Experiment's list does not name C; otherwise the Experiment saved without C, then C saved with the Experiment taken off, or removed once that list is empty |
| ExperimentManager.ScanWrites | src/Data/Database/Models/ExperimentManager.cs:80-86 | the scan's log: the turns' `StepWrites` in scan order, each turn seeing the Experiment map and C's list the earlier turns left |
| ExperimentManager.AllowedInScan | src/Data/Database/Models/ExperimentManager.cs:80-86 | the writes the scan may make: an Experiment that named C saved with C taken off, or a save or removal of C; never an Experiment's removal |
| ExperimentManager.DisassociateIfLinked | src/Data/Database/Models/ExperimentManager.cs:82-85 | the `Contains` guard: when E's list does not name C, no handle changes and nothing is written. Otherwise it disassociates: the Experiment map takes one `StripOne` step, C's handle loses E, the orphan rule holds for C's entry, and the log grows by `StepWrites` (E saved without C, then C saved or, once empty, removed). The step never fails |
| ExperimentManager.DisassociateMatching | src/Data/Database/Models/ExperimentManager.cs:80-86 | after the scan the Experiment map is the fold `StripAll` over the scanned ids. C's list is its old list without them. C's entry is saved with that list, or removed when it is empty. The log grows by exactly `ScanWrites`, the guarded step writes in scan order |
| ExperimentManager.ScanStep | src/Data/Database/Models/ExperimentManager.cs:80-86 | one turn of the scan: the Experiment map takes one more `StripAll` step, C's list loses one more scanned id, the orphan rule holds for C's entry, and the log grows by that Experiment's `StepWrites` |
| ExperimentManager.DeleteClinicalTest | src/Data/Database/Models/ExperimentManager.cs:75-87 | the store becomes `ClinicalTestDeleted` and C's handle ends up empty. The log grows by exactly `ScanWrites` over some duplicate-free ordering of the stored Experiments. Every new write saves an Experiment that named C, with C taken off, or saves or removes C; no other Experiment is written and none is removed. C's removal is written exactly when C was stored, and only as the last write |
| ExperimentManager.ScanWritesOnly | src/Data/Database/Models/ExperimentManager.cs:80-86 | every write of the scan saves an Experiment whose list named C, with C taken off, or saves or removes C itself; an Experiment that does not name C is never written |
| ExperimentManager.ScanWritesRemoval | src/Data/Database/Models/ExperimentManager.cs:82-85 | C's removal appears in the scan's writes exactly when C had Experiments and the scan took all of them away, and then only as the last write |

## Left out

- The search query text and its paging (`CONTAINS` on three fields with case-insensitive matching, `FeedIterator`, `ReadNextAsync`; lines 15-30) are foreign query-engine calls. `QueryExperiments` models only the empty term, which matches every Experiment. Its order is chosen nondeterministically.
- The `DatabaseService.Instance.Database == null` check (lines 10-12) is connection plumbing and is not modelled.
- `async`/`await` is modelled as ordinary sequential calls. The source awaits each call before the next.
- The bodies of `SaveToDatabase`, `RemoveFromDatabase` and `QueryClinicalTests` live in the Experiment and ClinicalTest model files, which are not part of this model. They are modelled as a map upsert, a map delete that reports NotFound for a missing document, and a lookup of the listed ids in the store that returns each stored one once, in an order the store chooses. The search argument `""` of `QueryClinicalTests` is not modelled.
- Concurrent writers, last-write-wins between processes, and transient store errors are not modelled. Save never fails in the model.
- ExperimentManager.DeleteExperiment: requires a handle that mirrors the store, since handles arrive loaded from it, and a duplicate-free list whose ClinicalTests are all stored. `Relation.ValidCascadeExperiment` shows that every valid store meets this. A store that breaks it, for example with a dangling id, is not covered.
- ExperimentManager.DeleteClinicalTest: requires a handle that mirrors the store, since handles arrive loaded from it, and a duplicate-free list that agrees with the Experiments' lists, and no stored ClinicalTest with an empty list. `Relation.ValidCascadeClinicalTest` shows that every valid store meets this. Inconsistent stores are not covered.
- ExperimentManager.Disassociate: invariant preservation is not stated on the method. It follows from the method's state equation and `Relation.DisassociatedValid`.
- Under these preconditions no Disassociate inside a cascade fails, as proved. So the exception that would abort a cascade half-way is not modelled.
