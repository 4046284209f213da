/**
 * Properties that relate several service operations: creation makes a record
 * retrievable, removal undoes creation, updates and score entries are
 * idempotent, and worked examples of the name and threshold queries.
 */
module ServiceLaws {
  import opened Wrappers
  import opened Students
  import opened StudentRepository
  import opened StudentService

  /** After a successful creation the record is retrievable, with no scores yet. */
  lemma AddThenFind(store: Store, dto: StudentAddDto)
    requires !ExistsById(store, dto.id)
    ensures FindStudent(AddStudent(store, dto).store, dto.id) == Ok(StudentDto(dto.id, dto.name, map[]))
  {
  }

  /** Creating the same id twice: the second attempt answers false and writes nothing. */
  lemma AddTwiceIsRefused(store: Store, dto: StudentAddDto)
    ensures !AddStudent(AddStudent(store, dto).store, dto).result
    ensures AddStudent(AddStudent(store, dto).store, dto).store == AddStudent(store, dto).store
  {
  }

  /** Removing a just-created student answers its view and restores the store. */
  lemma RemoveUndoesAdd(store: Store, dto: StudentAddDto)
    requires !ExistsById(store, dto.id)
    ensures RemoveStudent(AddStudent(store, dto).store, dto.id).result == Ok(StudentDto(dto.id, dto.name, map[]))
    ensures RemoveStudent(AddStudent(store, dto).store, dto.id).store == store
  {
  }

  /** A second removal of the same id fails with NotFound and changes nothing. */
  lemma RemoveTwiceIsNotFound(store: Store, id: int)
    ensures RemoveStudent(RemoveStudent(store, id).store, id)
              == Step(NotFound, RemoveStudent(store, id).store)
  {
  }

  /** Applying the same patch twice gives the same answer and the same store as once. */
  lemma UpdateIdempotent(store: Store, id: int, patch: StudentUpdateDto)
    ensures UpdateStudent(UpdateStudent(store, id, patch).store, id, patch) == UpdateStudent(store, id, patch)
  {
  }

  /** An update with neither field present leaves the store as it was. */
  lemma EmptyUpdateKeepsStore(store: Store, id: int)
    ensures UpdateStudent(store, id, StudentUpdateDto(None, None)).store == store
  {
  }

  /** After an update the public view shows the patched name and the old scores. */
  lemma UpdateThenFind(store: Store, id: int, patch: StudentUpdateDto)
    requires ExistsById(store, id)
    ensures FindStudent(UpdateStudent(store, id, patch).store, id)
              == Ok(StudentDto(id, patch.name.GetOr(store[id].name), store[id].scores))
  {
  }

  /** After a score entry the public view shows it, with every other score as before. */
  lemma AddScoreThenFind(store: Store, id: int, dto: ScoreDto, report: (Student, string, int) -> bool)
    requires ExistsById(store, id)
    ensures FindStudent(AddScore(store, id, dto, report).store, id)
              == Ok(StudentDto(id, store[id].name, store[id].scores[dto.examName := dto.score]))
  {
  }

  /** Recording the same score twice leaves the same store as recording it once. */
  lemma AddScoreIdempotent(store: Store, id: int, dto: ScoreDto, report: (Student, string, int) -> bool)
    ensures AddScore(AddScore(store, id, dto, report).store, id, dto, report).store
              == AddScore(store, id, dto, report).store
  {
    if id in store {
      var t := PutScore(store[id], dto.examName, dto.score);
      PutScoreIdempotent(store[id], dto.examName, dto.score);
      assert Save(Save(store, t), t) == Save(store, t);
    }
  }

  /** Score entries never change which records a name query selects. */
  lemma AddScoreKeepsNameMatches(store: Store, id: int, dto: ScoreDto, report: (Student, string, int) -> bool, name: string)
    ensures MatchingIds(AddScore(store, id, dto, report).store, NameIgnoreCase(name))
              == MatchingIds(store, NameIgnoreCase(name))
  {
  }

  /** The store holding only John, with 90 in Math. */
  function JohnStore(): (store: Store)
    ensures store.Keys == {1}
  {
    map[1 := Student(1, "John", "1234", map["Math" := 90])]
  }

  /** A threshold of 90 finds John; a threshold of 91 finds nobody. */
  lemma ExamThresholdExample()
    ensures FindStudentsByExamMinScore(JohnStore(), [1], "Math", 90) == [StudentDto(1, "John", map["Math" := 90])]
    ensures FindStudentsByExamMinScore(JohnStore(), [1], "Math", 91) == []
    ensures FindStudentsByExamMinScore(JohnStore(), [1], "Physics", 0) == []
  {
  }

  /**
   * The name query ignores case, while the name count is exact: "john" finds
   * John by name but counts zero.
   */
  lemma NameQueriesExample()
    ensures FindStudentsByName(JohnStore(), [1], "john") == [StudentDto(1, "John", map["Math" := 90])]
    ensures GetStudentsQuantityByNames(JohnStore(), {"John", "Peter"}) == 1
    ensures GetStudentsQuantityByNames(JohnStore(), {"john"}) == 0
  {
  }
}
