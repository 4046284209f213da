# Student service — a Dafny model

This project models the student-record service of a small Spring/MongoDB
application. The service adds and removes students, looks them up, applies
partial updates, records exam scores, and runs three filtered lookups: by
name ignoring case, a count by a set of names, and by a minimum exam score.

The record store the service delegates to (a MongoDB repository) is modelled
as an abstract map from student id to student document, `Store`. Each
service operation is a pure function. A mutating operation returns
`Step(result, store')`, the caller's answer together with the store
afterwards. A read-only operation takes the store and returns only the
answer. A missing student is the `NotFound` case of `Result`. A duplicate id
on creation is the answer `false`, not an error.

Modules, one per part of the program:

- `Wrappers`: `Option`, which stands for Java's `null` and `Optional`.
- `CaseFold`: ASCII case-insensitive string equality, which backs the
  `findByNameIgnoreCase` query.
- `Students`: the `Student` document and the transfer shapes. These are the
  public view `StudentDto`, the creation shape `StudentAddDto`, the patch
  `StudentUpdateDto` and `ScoreDto`. The reflective object mapper becomes
  explicit projection functions.
- `StudentRepository`: the store contract. `existsById`, `findById`, `save`
  and `deleteById` are map operations. The derived queries are filters
  (`Criterion`) applied along an iteration order of the store.
- `StudentService`: the eight service operations.
- `ServiceLaws`: properties that relate several operations, plus worked
  examples.

The store does not promise any iteration order. The queries therefore take
the order as an input, `order`, constrained by `IsIterationOrder` to list
every stored id exactly once. The properties proved about the queries hold
for every such order.

Two of the lookups match more strictly than their neighbours:

- `countStudentsByNameIn` has no `IgnoreCase` qualifier, so the count is
  exact-case even though `findByNameIgnoreCase` ignores case.
  `ServiceLaws.NameQueriesExample` shows "john" finding John by name but
  counting zero.
- The query `{'scores.?0': {$gte: ?1}}` of `findAllByExamMinScore` addresses
  the exam key by its exact name, so the exam key must match exactly.

## Model

| member | source | states |
|---|---|---|
| CaseFold.EqualsIgnoreCaseCharwise | src/main/java/ait/cohort46/student/dao/StudentRepository.java:13 | two names are equal ignoring case exactly when they have the same length and each pair of characters is equal or one is the capital of the other |
| CaseFold.EqualsIgnoreCaseIsEquivalence | src/main/java/ait/cohort46/student/dao/StudentRepository.java:13 | matching ignoring case is reflexive, symmetric and transitive |
| CaseFold.LowerMatchesOriginal | src/main/java/ait/cohort46/student/dao/StudentRepository.java:13 | a name matches its own lower-cased form |
| CaseFold.JohnMatchesLowerCase | src/main/java/ait/cohort46/student/dao/StudentRepository.java:13 | "john" matches "John" and does not match "Johnny" |
| Students.ToDto | src/main/java/ait/cohort46/student/service/StudentServiceImpl.java:40 | the public view has the record's id, name and scores; it has no password |
| Students.ToAddDto | src/main/java/ait/cohort46/student/service/StudentServiceImpl.java:60 | the creation shape has the record's id, name and password |
| Students.NewStudent | src/main/java/ait/cohort46/student/service/StudentServiceImpl.java:32 | the record built from a creation input gives that input back as its creation shape and has no scores |
| Students.ApplyPatch | src/main/java/ait/cohort46/student/service/StudentServiceImpl.java:53-58 | name and password are replaced only by present patch fields; id and scores never change |
| Students.PutScore | src/main/java/ait/cohort46/student/service/StudentServiceImpl.java:66 | the exam's entry becomes the score, the exam key set gains only that exam, every other entry and field is kept |
| Students.ToDtoForgetsOnlyPassword | src/main/java/ait/cohort46/student/service/StudentServiceImpl.java:40 | two records have the same public view exactly when they differ at most in the password |
| Students.ViewsDetermineStudent | src/main/java/ait/cohort46/student/service/StudentServiceImpl.java:60 | the public view and the creation shape returned by an update together determine the record |
| Students.ApplyPatchIdempotent | src/main/java/ait/cohort46/student/service/StudentServiceImpl.java:53-58 | applying a patch twice equals applying it once |
| Students.EmptyPatchIsIdentity | src/main/java/ait/cohort46/student/service/StudentServiceImpl.java:53-58 | a patch with both fields null leaves the record unchanged |
| Students.PutScoreIdempotent | src/main/java/ait/cohort46/student/service/StudentServiceImpl.java:66 | recording the same score twice equals recording it once |
| StudentRepository.ExistsById | src/main/java/ait/cohort46/student/service/StudentServiceImpl.java:29 | an id exists exactly when some stored document carries it |
| StudentRepository.FindById | src/main/java/ait/cohort46/student/dao/StudentRepository.java:12 | a lookup finds a document exactly when the id exists, and what it finds is the stored document under that id |
| StudentRepository.Save | src/main/java/ait/cohort46/student/dao/StudentRepository.java:12 | after saving, a lookup of the document's id returns it; every other id's lookup is unchanged |
| StudentRepository.DeleteById | src/main/java/ait/cohort46/student/dao/StudentRepository.java:12 | after deleting, the id does not exist; every other id's lookup is unchanged |
| StudentRepository.ExistsIffFound | src/main/java/ait/cohort46/student/dao/StudentRepository.java:12 | existsById holds exactly when findById is present |
| StudentRepository.SaveThenDeleteFresh | src/main/java/ait/cohort46/student/dao/StudentRepository.java:12 | saving a document under a fresh id and deleting that id restores the store |
| StudentRepository.InStore | src/main/java/ait/cohort46/student/dao/StudentRepository.java:12 | a document is stored exactly when it is filed under its own id |
| StudentRepository.Select | src/main/java/ait/cohort46/student/dao/StudentRepository.java:13-20 | a filtered walk of the store yields only stored documents that match, and every matching document it passes |
| StudentRepository.SelectCountsMatching | src/main/java/ait/cohort46/student/dao/StudentRepository.java:13-20 | along a duplicate-free walk the results have distinct ids and there is one result per matching id |
| StudentRepository.SelectIsExact | src/main/java/ait/cohort46/student/dao/StudentRepository.java:13-20 | for every iteration order a query yields exactly the matching documents, each once, as many as there are matching ids |
| StudentRepository.GetAllBy | src/main/java/ait/cohort46/student/dao/StudentRepository.java:15 | yields every stored document, each exactly once |
| StudentRepository.FindByNameIgnoreCase | src/main/java/ait/cohort46/student/dao/StudentRepository.java:13 | yields exactly the documents whose name equals the given name up to letter case, each once |
| StudentRepository.CountStudentsByNameIn | src/main/java/ait/cohort46/student/dao/StudentRepository.java:17 | equals the number of documents the exact-case name-set query yields in any iteration order, and is at most the store size |
| StudentRepository.FindAllByExamMinScore | src/main/java/ait/cohort46/student/dao/StudentRepository.java:19-20 | yields exactly the documents with an entry for the exam of at least the minimum, each once; documents without the entry never match |
| StudentRepository.ExamMinScoreMonotone | src/main/java/ait/cohort46/student/dao/StudentRepository.java:19-20 | raising the minimum score can only shrink the selected set |
| StudentService.AddStudent | src/main/java/ait/cohort46/student/service/StudentServiceImpl.java:28-35 | answers true exactly when the id is fresh; on false the store is unchanged; on true the id maps to a record with the input's id, name and password and no scores; other ids are untouched |
| StudentService.FindStudent | src/main/java/ait/cohort46/student/service/StudentServiceImpl.java:38-41 | NotFound exactly when the id is absent; otherwise the view has the stored id, name and scores |
| StudentService.RemoveStudent | src/main/java/ait/cohort46/student/service/StudentServiceImpl.java:44-48 | answers what findStudent answered before the call; afterwards the id is absent; NotFound leaves the store unchanged; other ids are untouched |
| StudentService.UpdateStudent | src/main/java/ait/cohort46/student/service/StudentServiceImpl.java:51-61 | NotFound exactly when the id is absent, with the store unchanged; otherwise only present patch fields replace name or password, id and scores are kept, the answer is the creation shape of the stored record, other ids are untouched |
| StudentService.AddScore | src/main/java/ait/cohort46/student/service/StudentServiceImpl.java:64-69 | NotFound exactly when the id is absent, with the store unchanged; otherwise the exam's score is set, every other score, the name and the password are kept, other ids are untouched, and the answer is the entity's own report |
| StudentService.ToDtos | src/main/java/ait/cohort46/student/service/StudentServiceImpl.java:73-75 | one public view per record the store yields, same length and same order |
| StudentService.FindStudentsByName | src/main/java/ait/cohort46/student/service/StudentServiceImpl.java:72-76 | one view per record the store yields, in the same order; every view is a stored record matching the name ignoring case, and every such record appears |
| StudentService.GetStudentsQuantityByNames | src/main/java/ait/cohort46/student/service/StudentServiceImpl.java:79-81 | the number of stored records whose name is in the set, never more than the store size |
| StudentService.FindStudentsByExamMinScore | src/main/java/ait/cohort46/student/service/StudentServiceImpl.java:84-88 | one view per record the store yields, in the same order; every view has the exam at or above the minimum, and every such record appears |
| ServiceLaws.AddThenFind | src/main/java/ait/cohort46/student/service/StudentServiceImpl.java:32-34 | after creating a fresh id, findStudent returns its name and an empty score map |
| ServiceLaws.AddTwiceIsRefused | src/main/java/ait/cohort46/student/service/StudentServiceImpl.java:29-31 | repeating a creation answers false and writes nothing |
| ServiceLaws.RemoveUndoesAdd | src/main/java/ait/cohort46/student/service/StudentServiceImpl.java:44-48 | removing a just-created student answers its view and restores the original store |
| ServiceLaws.RemoveTwiceIsNotFound | src/main/java/ait/cohort46/student/service/StudentServiceImpl.java:44-48 | a second removal of the same id is NotFound and changes nothing |
| ServiceLaws.UpdateIdempotent | src/main/java/ait/cohort46/student/service/StudentServiceImpl.java:51-61 | applying the same patch twice gives the same answer and store as once |
| ServiceLaws.EmptyUpdateKeepsStore | src/main/java/ait/cohort46/student/service/StudentServiceImpl.java:53-59 | an update with both fields null leaves the store unchanged |
| ServiceLaws.UpdateThenFind | src/main/java/ait/cohort46/student/service/StudentServiceImpl.java:51-61 | after an update findStudent shows the patched name and the old scores |
| ServiceLaws.AddScoreThenFind | src/main/java/ait/cohort46/student/service/StudentServiceImpl.java:64-69 | after a score entry findStudent shows the old scores with that exam set to the score |
| ServiceLaws.AddScoreIdempotent | src/main/java/ait/cohort46/student/service/StudentServiceImpl.java:64-69 | recording the same score twice leaves the same store as once |
| ServiceLaws.AddScoreKeepsNameMatches | src/main/java/ait/cohort46/student/service/StudentServiceImpl.java:64-69 | a score entry never changes which records a name query selects |
| ServiceLaws.ExamThresholdExample | src/main/java/ait/cohort46/student/dao/StudentRepository.java:19-20 | with John at 90 in Math, a minimum of 90 finds him, 91 finds nobody, and an exam he has not taken finds nobody |
| ServiceLaws.NameQueriesExample | src/main/java/ait/cohort46/student/dao/StudentRepository.java:13-17 | "john" finds John by name ignoring case; the name-set count is 1 for {"John", "Peter"} and 0 for {"john"} |

## Left out

- StudentService.AddScore: the boolean answer is not interpreted. Its meaning depends on `Student.addScore` in `model/Student.java`, which is not part of this model. The answer is the parameter `report` applied to the record before the change, and no claim such as "true exactly when the exam is new" is made.
- Students.PutScore: the effect of `Student.addScore` on the record is assumed to be a put on `scores` (insert the exam's entry, or overwrite it), because `model/Student.java` is not part of this model.
- Students.NewStudent: a new record starts with an empty score map. This assumes the `Student` constructor's initial state, because `model/Student.java` is not part of this model.
- Integer widths: ids (`Long`), scores and thresholds (`Integer`) and the count (`Long`) are unbounded integers. A 64-bit count cannot overflow for any store that fits in memory.
- Null inputs: every null reference except the patch's two fields is left out. This covers a `null` id (the repository throws `IllegalArgumentException`), a `null` patch object or `ScoreDto` (a `NullPointerException`), a `null` name or password in a creation input (stored as-is by the source), a `null` exam name or score, and `null` elements of the name set. The patch's nullable fields are modelled, as `Option`.
- MongoDB query details: an exam name containing `.` or starting with `$` addresses a nested path or an operator in the real query, and a score stored with a non-numeric type never matches the numeric `$gte` (type bracketing). Saving a score under an exam name that contains `.` fails in the mapping layer unless a key replacement is configured; the model then answers `Ok` where the source throws. The model treats the exam name as a plain key of an integer map.
- Unicode case folding: only ASCII letters are folded for `findByNameIgnoreCase`.
- Regex matching of `findByNameIgnoreCase`: Spring Data runs it as an anchored, case-insensitive regular expression `^…$`, and `$` also matches before a trailing newline, so a stored "John\n" would match "john". The model compares whole strings.
- Iteration order: the store's order is an input (`order`); which order MongoDB actually uses is not modelled.
- `deleteById` on an absent id is a no-op in the model. The service only calls it after a successful lookup.
- Store failures (an unavailable database, serialisation errors) pass through the source unchanged and are not modelled.
- The reflective object mapper, Spring wiring, `Stream` laziness and the test scaffolding are replaced by explicit projection functions and pure functions.
- The non-atomic exists-then-save of `addStudent` can race between concurrent callers. The model is single-threaded.
