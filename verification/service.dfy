/**
 * The student service: each operation is a pure transition over the record
 * store. Mutating operations return the caller's result together with the
 * store afterwards; read-only operations return only the result.
 */
module StudentService {
  import opened Wrappers
  import opened Students
  import opened CaseFold
  import opened StudentRepository

  /** `NotFound` is the service's one domain error (StudentNotFoundException). */
  datatype Result<+T> = Ok(value: T) | NotFound

  /** What a mutating operation returns, and the store it leaves behind. */
  datatype Step<+T> = Step(result: T, store: Store)

  /**
   * A duplicate id is a business outcome, not an error: the answer is false
   * and nothing is written. Otherwise the new record is saved.
   */
  function AddStudent(store: Store, dto: StudentAddDto): (r: Step<bool>)
    ensures r.result <==> !ExistsById(store, dto.id)
    ensures !r.result ==> r.store == store
    ensures r.result ==> dto.id in r.store && ToAddDto(r.store[dto.id]) == dto
    ensures r.result ==> r.store[dto.id].scores == map[]
    ensures forall id :: id != dto.id ==> FindById(r.store, id) == FindById(store, id)
  {
    if ExistsById(store, dto.id) then Step(false, store)
    else Step(true, Save(store, NewStudent(dto)))
  }

  /** The public view of the stored record, or NotFound. */
  function FindStudent(store: Store, id: int): (r: Result<StudentDto>)
    ensures r.NotFound? <==> !ExistsById(store, id)
    ensures r.Ok? ==> r.value.id == id
    ensures r.Ok? ==> r.value.name == store[id].name && r.value.scores == store[id].scores
  {
    match FindById(store, id)
    case None => NotFound
    case Some(s) => Ok(ToDto(s))
  }

  /** The view as it was before deletion; afterwards the id is gone. */
  function RemoveStudent(store: Store, id: int): (r: Step<Result<StudentDto>>)
    ensures r.result == FindStudent(store, id)
    ensures r.result.NotFound? ==> r.store == store
    ensures !ExistsById(r.store, id)
    ensures forall other :: other != id ==> FindById(r.store, other) == FindById(store, other)
  {
    match FindStudent(store, id)
    case NotFound => Step(NotFound, store)
    case Ok(view) => Step(Ok(view), DeleteById(store, id))
  }

  /**
   * Apply the patch's present fields and save. The record is saved even when
   * the patch is empty. The answer is the creation shape of the saved record.
   */
  function UpdateStudent(store: Store, id: int, patch: StudentUpdateDto): (r: Step<Result<StudentAddDto>>)
    ensures r.result.NotFound? <==> !ExistsById(store, id)
    ensures r.result.NotFound? ==> r.store == store
    ensures r.result.Ok? ==> id in r.store && r.result.value == ToAddDto(r.store[id])
    ensures r.result.Ok? ==>
              && r.store[id].id == id
              && r.store[id].scores == store[id].scores
              && (patch.name.Some? ==> r.store[id].name == patch.name.value)
              && (patch.name.None? ==> r.store[id].name == store[id].name)
              && (patch.password.Some? ==> r.store[id].password == patch.password.value)
              && (patch.password.None? ==> r.store[id].password == store[id].password)
    ensures forall other :: other != id ==> FindById(r.store, other) == FindById(store, other)
  {
    match FindById(store, id)
    case None => Step(NotFound, store)
    case Some(s) =>
      var t := ApplyPatch(s, patch);
      Step(Ok(ToAddDto(t)), Save(store, t))
  }

  /**
   * Record one exam score and save. The boolean the entity reports for the
   * insertion is not defined by this model: `report` stands for it, applied
   * to the record as it was before.
   */
  function AddScore(store: Store, id: int, dto: ScoreDto, report: (Student, string, int) -> bool): (r: Step<Result<bool>>)
    ensures r.result.NotFound? <==> !ExistsById(store, id)
    ensures r.result.NotFound? ==> r.store == store
    ensures r.result.Ok? ==> r.result.value == report(store[id], dto.examName, dto.score)
    ensures r.result.Ok? ==>
              && id in r.store
              && r.store[id].id == id
              && r.store[id].name == store[id].name
              && r.store[id].password == store[id].password
              && dto.examName in r.store[id].scores
              && r.store[id].scores[dto.examName] == dto.score
              && r.store[id].scores.Keys == store[id].scores.Keys + {dto.examName}
              && (forall e :: e in store[id].scores && e != dto.examName ==>
                    r.store[id].scores[e] == store[id].scores[e])
    ensures forall other :: other != id ==> FindById(r.store, other) == FindById(store, other)
  {
    match FindById(store, id)
    case None => Step(NotFound, store)
    case Some(s) =>
      Step(Ok(report(s, dto.examName, dto.score)), Save(store, PutScore(s, dto.examName, dto.score)))
  }

  /** One public view per record, in the order the store hands them out. */
  function ToDtos(rs: seq<Student>): (vs: seq<StudentDto>)
    ensures |vs| == |rs|
    ensures forall i :: 0 <= i < |rs| ==> vs[i] == ToDto(rs[i])
  {
    seq(|rs|, i requires 0 <= i < |rs| => ToDto(rs[i]))
  }

  /**
   * The views of the records the store yields for the name ignoring case:
   * one view per record, in the store's order; every matching record appears.
   */
  function FindStudentsByName(store: Store, order: seq<int>, name: string): (views: seq<StudentDto>)
    requires IsIterationOrder(store, order)
    ensures |views| == |FindByNameIgnoreCase(store, order, name)|
    ensures forall i :: 0 <= i < |views| ==> views[i] == ToDto(FindByNameIgnoreCase(store, order, name)[i])
    ensures forall i :: 0 <= i < |views| ==>
              views[i].id in store && views[i] == ToDto(store[views[i].id]) && EqualsIgnoreCase(views[i].name, name)
    ensures forall id :: id in store && EqualsIgnoreCase(store[id].name, name) ==> ToDto(store[id]) in views
  {
    var rs := FindByNameIgnoreCase(store, order, name);
    var views := ToDtos(rs);
    forall i | 0 <= i < |views|
      ensures views[i].id in store && views[i] == ToDto(store[views[i].id])
    {
      assert rs[i] in rs;
      InStore(store, rs[i]);
    }
    forall id | id in store && EqualsIgnoreCase(store[id].name, name)
      ensures ToDto(store[id]) in views
    {
      assert store[id] in store.Values;
      var k :| 0 <= k < |rs| && rs[k] == store[id];
      assert views[k] == ToDto(store[id]);
    }
    views
  }

  /** The store's count, passed through unchanged. */
  function GetStudentsQuantityByNames(store: Store, names: set<string>): (n: nat)
    ensures n == |MatchingIds(store, NameIn(names))|
    ensures n <= |store|
  {
    CountStudentsByNameIn(store, names)
  }

  /**
   * The views of the records the store yields for the score threshold: one
   * view per record, in the store's order; exactly the records with an entry
   * for the exam of at least `minScore` appear.
   */
  function FindStudentsByExamMinScore(store: Store, order: seq<int>, exam: string, minScore: int): (views: seq<StudentDto>)
    requires IsIterationOrder(store, order)
    ensures |views| == |FindAllByExamMinScore(store, order, exam, minScore)|
    ensures forall i :: 0 <= i < |views| ==> views[i] == ToDto(FindAllByExamMinScore(store, order, exam, minScore)[i])
    ensures forall i :: 0 <= i < |views| ==>
              views[i].id in store && views[i] == ToDto(store[views[i].id])
              && exam in views[i].scores && views[i].scores[exam] >= minScore
    ensures forall id :: id in store && exam in store[id].scores && store[id].scores[exam] >= minScore ==>
              ToDto(store[id]) in views
  {
    var rs := FindAllByExamMinScore(store, order, exam, minScore);
    var views := ToDtos(rs);
    forall i | 0 <= i < |views|
      ensures views[i].id in store && views[i] == ToDto(store[views[i].id])
    {
      assert rs[i] in rs;
      InStore(store, rs[i]);
    }
    forall id | id in store && exam in store[id].scores && store[id].scores[exam] >= minScore
      ensures ToDto(store[id]) in views
    {
      assert store[id] in store.Values;
      var k :| 0 <= k < |rs| && rs[k] == store[id];
      assert views[k] == ToDto(store[id]);
    }
    views
  }
}
