/**
 * The persisted student document and the transfer shapes that cross the
 * service boundary, with explicit field-copying in place of reflective
 * object mapping.
 */
module Students {
  import opened Wrappers

  /** A stored student: caller-chosen id, mutable name and password, exam scores. */
  datatype Student = Student(id: int, name: string, password: string, scores: map<string, int>)

  /** The public view: everything but the password. */
  datatype StudentDto = StudentDto(id: int, name: string, scores: map<string, int>)

  /** The creation input, also returned by an update: id, name and password. */
  datatype StudentAddDto = StudentAddDto(id: int, name: string, password: string)

  /** A patch: an absent field (a `null` in the source) leaves the stored field alone. */
  datatype StudentUpdateDto = StudentUpdateDto(name: Option<string>, password: Option<string>)

  /** One exam result to record. */
  datatype ScoreDto = ScoreDto(examName: string, score: int)

  /** The public view copies the fields it shares with the record; it has no password. */
  function ToDto(s: Student): (v: StudentDto)
    ensures v.id == s.id && v.name == s.name && v.scores == s.scores
  {
    StudentDto(s.id, s.name, s.scores)
  }

  /** The creation shape copies the fields it shares with the record. */
  function ToAddDto(s: Student): (d: StudentAddDto)
    ensures d.id == s.id && d.name == s.name && d.password == s.password
  {
    StudentAddDto(s.id, s.name, s.password)
  }

  /** A freshly created student carries the input's fields and no scores yet. */
  function NewStudent(d: StudentAddDto): (s: Student)
    ensures ToAddDto(s) == d
    ensures s.scores == map[]
  {
    Student(d.id, d.name, d.password, map[])
  }

  /** Overwrite name and password with the patch's present fields. */
  function ApplyPatch(s: Student, p: StudentUpdateDto): (t: Student)
    ensures t.id == s.id && t.scores == s.scores
    ensures p.name.None? ==> t.name == s.name
    ensures p.name.Some? ==> t.name == p.name.value
    ensures p.password.None? ==> t.password == s.password
    ensures p.password.Some? ==> t.password == p.password.value
  {
    s.(name := p.name.GetOr(s.name), password := p.password.GetOr(s.password))
  }

  /** Insert or overwrite one exam entry of the score map. */
  function PutScore(s: Student, exam: string, score: int): (t: Student)
    ensures t.id == s.id && t.name == s.name && t.password == s.password
    ensures t.scores.Keys == s.scores.Keys + {exam}
    ensures exam in t.scores && t.scores[exam] == score
    ensures forall e :: e in s.scores && e != exam ==> t.scores[e] == s.scores[e]
  {
    s.(scores := s.scores[exam := score])
  }

  /** Together the public view and the creation shape determine the whole record. */
  lemma ViewsDetermineStudent(s: Student, t: Student)
    ensures ToDto(s) == ToDto(t) && ToAddDto(s) == ToAddDto(t) <==> s == t
  {
  }

  /** The public view forgets exactly the password. */
  lemma ToDtoForgetsOnlyPassword(s: Student, t: Student)
    ensures ToDto(s) == ToDto(t) <==> s.(password := t.password) == t
  {
  }

  /** Applying the same patch a second time changes nothing more. */
  lemma ApplyPatchIdempotent(s: Student, p: StudentUpdateDto)
    ensures ApplyPatch(ApplyPatch(s, p), p) == ApplyPatch(s, p)
  {
  }

  /** A patch with both fields absent leaves the record as it was. */
  lemma EmptyPatchIsIdentity(s: Student)
    ensures ApplyPatch(s, StudentUpdateDto(None, None)) == s
  {
  }

  /** Recording the same score twice is the same as recording it once. */
  lemma PutScoreIdempotent(s: Student, exam: string, score: int)
    ensures PutScore(PutScore(s, exam, score), exam, score) == PutScore(s, exam, score)
  {
  }
}
