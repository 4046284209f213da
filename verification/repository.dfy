/**
 * The record store the service talks to, as an abstract map from id to
 * document. The inherited CRUD operations are map operations; the derived
 * queries are filters over an iteration order of the store.
 */
module StudentRepository {
  import opened Wrappers
  import opened Students
  import opened CaseFold

  /** Documents are filed under their own id. */
  type Store = m: map<int, Student> | forall id :: id in m ==> m[id].id == id witness map[]

  /** An id exists exactly when some stored document carries it. */
  predicate ExistsById(store: Store, id: int)
    ensures ExistsById(store, id) <==> exists s :: s in store.Values && s.id == id
  {
    assert id in store ==> store[id] in store.Values;
    id in store
  }

  /** The document stored under `id`, if there is one. */
  function FindById(store: Store, id: int): (r: Option<Student>)
    ensures r.Some? <==> ExistsById(store, id)
    ensures r.Some? ==> r.value in store.Values && r.value.id == id
  {
    if id in store then Some(store[id]) else None
  }

  /** Insert or replace the document under its own id; every other id keeps its document. */
  function Save(store: Store, s: Student): (r: Store)
    ensures FindById(r, s.id) == Some(s)
    ensures forall id :: id != s.id ==> FindById(r, id) == FindById(store, id)
  {
    store[s.id := s]
  }

  /** Remove the document under `id`, if any; every other id keeps its document. */
  function DeleteById(store: Store, id: int): (r: Store)
    ensures !ExistsById(r, id)
    ensures forall other :: other != id ==> FindById(r, other) == FindById(store, other)
  {
    store - {id}
  }

  /** A document is in the store exactly when it is filed under its own id. */
  lemma InStore(store: Store, s: Student)
    ensures s in store.Values <==> s.id in store && store[s.id] == s
  {
  }

  /** The filters behind the repository's query methods. */
  datatype Criterion =
    | Every                                        // getAllBy
    | NameIgnoreCase(name: string)                 // findByNameIgnoreCase
    | NameIn(names: set<string>)                   // countStudentsByNameIn
    | ExamMinScore(exam: string, minScore: int)    // findAllByExamMinScore

  predicate Matches(c: Criterion, s: Student) {
    match c
    case Every => true
    case NameIgnoreCase(n) => EqualsIgnoreCase(s.name, n)
    case NameIn(ns) => s.name in ns
    case ExamMinScore(e, m) => e in s.scores && s.scores[e] >= m
  }

  /** The ids of the stored documents a criterion selects. */
  function MatchingIds(store: Store, c: Criterion): set<int> {
    set id | id in store && Matches(c, store[id])
  }

  ghost predicate Distinct(ids: seq<int>) {
    forall i, j :: 0 <= i < j < |ids| ==> ids[i] != ids[j]
  }

  ghost predicate DistinctIds(rs: seq<Student>) {
    forall i, j :: 0 <= i < j < |rs| ==> rs[i].id != rs[j].id
  }

  /**
   * The order in which the store hands out its documents: every stored id
   * exactly once. The store does not promise any particular order.
   */
  ghost predicate IsIterationOrder(store: Store, order: seq<int>) {
    && Distinct(order)
    && (forall i :: 0 <= i < |order| ==> order[i] in store)
    && (forall id :: id in store ==> id in order)
  }

  /** Walk `order` and keep the documents the criterion selects, in that order. */
  function Select(store: Store, order: seq<int>, c: Criterion): (rs: seq<Student>)
    requires forall i :: 0 <= i < |order| ==> order[i] in store
    ensures |rs| <= |order|
    ensures forall i :: 0 <= i < |rs| ==> rs[i].id in order && rs[i] in store.Values && Matches(c, rs[i])
    ensures forall k :: 0 <= k < |order| && Matches(c, store[order[k]]) ==> store[order[k]] in rs
    decreases |order|
  {
    if order == [] then []
    else
      var rest := Select(store, order[1..], c);
      assert forall k :: 1 <= k < |order| ==> order[k] == order[1..][k - 1];
      if Matches(c, store[order[0]]) then [store[order[0]]] + rest else rest
  }

  /** The ids among `order` whose documents the criterion selects. */
  ghost function MatchingAmong(store: Store, order: seq<int>, c: Criterion): set<int> {
    set id | id in order && id in store && Matches(c, store[id])
  }

  lemma DistinctTail(order: seq<int>)
    requires order != [] && Distinct(order)
    ensures Distinct(order[1..])
    ensures order[0] !in order[1..]
  {
  }

  lemma MatchingAmongCons(store: Store, order: seq<int>, c: Criterion)
    requires order != [] && order[0] in store
    ensures Matches(c, store[order[0]]) ==>
              MatchingAmong(store, order, c) == {order[0]} + MatchingAmong(store, order[1..], c)
    ensures !Matches(c, store[order[0]]) ==>
              MatchingAmong(store, order, c) == MatchingAmong(store, order[1..], c)
  {
  }

  lemma DistinctIdsCons(x: Student, rest: seq<Student>, ids: seq<int>)
    requires DistinctIds(rest)
    requires forall j :: 0 <= j < |rest| ==> rest[j].id in ids
    requires x.id !in ids
    ensures DistinctIds([x] + rest)
  {
  }

  lemma {:induction false} SelectCountsMatching(store: Store, order: seq<int>, c: Criterion)
    requires Distinct(order)
    requires forall i :: 0 <= i < |order| ==> order[i] in store
    ensures DistinctIds(Select(store, order, c))
    ensures |Select(store, order, c)| == |MatchingAmong(store, order, c)|
    decreases |order|
  {
    if order != [] {
      var h, t := order[0], order[1..];
      DistinctTail(order);
      SelectCountsMatching(store, t, c);
      MatchingAmongCons(store, order, c);
      var rest := Select(store, t, c);
      assert h !in MatchingAmong(store, t, c);
      if Matches(c, store[h]) {
        assert Select(store, order, c) == [store[h]] + rest;
        DistinctIdsCons(store[h], rest, t);
      } else {
        assert Select(store, order, c) == rest;
      }
    }
  }

  /**
   * Walking any iteration order yields exactly the matching documents, each
   * exactly once, however the store orders them.
   */
  lemma {:induction false} SelectIsExact(store: Store, order: seq<int>, c: Criterion)
    requires IsIterationOrder(store, order)
    ensures forall s :: s in Select(store, order, c) <==> s in store.Values && Matches(c, s)
    ensures DistinctIds(Select(store, order, c))
    ensures |Select(store, order, c)| == |MatchingIds(store, c)|
  {
    var rs := Select(store, order, c);
    SelectCountsMatching(store, order, c);
    assert MatchingAmong(store, order, c) == MatchingIds(store, c);
    forall s | s in store.Values && Matches(c, s)
      ensures s in rs
    {
      InStore(store, s);
      var k :| 0 <= k < |order| && order[k] == s.id;
    }
  }

  /** getAllBy: every stored document, each exactly once. */
  function GetAllBy(store: Store, order: seq<int>): (rs: seq<Student>)
    requires IsIterationOrder(store, order)
    ensures forall s :: s in rs <==> s in store.Values
    ensures DistinctIds(rs)
    ensures |rs| == |store|
  {
    SelectIsExact(store, order, Every);
    assert MatchingIds(store, Every) == store.Keys;
    Select(store, order, Every)
  }

  /** findByNameIgnoreCase: the documents whose name equals `name` up to letter case. */
  function FindByNameIgnoreCase(store: Store, order: seq<int>, name: string): (rs: seq<Student>)
    requires IsIterationOrder(store, order)
    ensures forall s :: s in rs <==> s in store.Values && EqualsIgnoreCase(s.name, name)
    ensures DistinctIds(rs)
  {
    SelectIsExact(store, order, NameIgnoreCase(name));
    Select(store, order, NameIgnoreCase(name))
  }

  /**
   * countStudentsByNameIn: how many documents have a name in `names`. The
   * derived query carries no IgnoreCase, so membership is exact.
   */
  function CountStudentsByNameIn(store: Store, names: set<string>): (n: nat)
    ensures n <= |store|
    ensures forall order :: IsIterationOrder(store, order) ==>
              n == |Select(store, order, NameIn(names))|
  {
    var ids := MatchingIds(store, NameIn(names));
    assert ids <= store.Keys;
    SubsetCard(ids, store.Keys);
    forall order | IsIterationOrder(store, order)
      ensures |ids| == |Select(store, order, NameIn(names))|
    {
      SelectIsExact(store, order, NameIn(names));
    }
    |ids|
  }

  lemma SubsetCard(a: set<int>, b: set<int>)
    requires a <= b
    ensures |a| <= |b|
  {
    assert b == a + (b - a);
  }

  /**
   * findAllByExamMinScore: the documents whose score map has an entry for
   * `exam` of at least `minScore`; documents without that entry never match.
   */
  function FindAllByExamMinScore(store: Store, order: seq<int>, exam: string, minScore: int): (rs: seq<Student>)
    requires IsIterationOrder(store, order)
    ensures forall s :: s in rs <==> s in store.Values && exam in s.scores && s.scores[exam] >= minScore
    ensures DistinctIds(rs)
  {
    SelectIsExact(store, order, ExamMinScore(exam, minScore));
    Select(store, order, ExamMinScore(exam, minScore))
  }

  /** existsById holds exactly when findById finds something. */
  lemma ExistsIffFound(store: Store, id: int)
    ensures ExistsById(store, id) <==> FindById(store, id).Some?
  {
  }

  /** Saving then deleting a fresh document gives back the original store. */
  lemma SaveThenDeleteFresh(store: Store, s: Student)
    requires !ExistsById(store, s.id)
    ensures DeleteById(Save(store, s), s.id) == store
  {
  }

  /** A higher threshold selects a subset of what a lower one selects. */
  lemma ExamMinScoreMonotone(store: Store, exam: string, lo: int, hi: int)
    requires lo <= hi
    ensures MatchingIds(store, ExamMinScore(exam, hi)) <= MatchingIds(store, ExamMinScore(exam, lo))
  {
  }
}
