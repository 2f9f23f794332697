/**
 * Properties of the course-management service that relate several steps:
 * create-then-get, what deleting a course leaves, repeated enrollment, the
 * foreign-key invariant over any run of requests, and how a freed id is
 * handed out again.
 */
module CmsProps {
  import opened Wrappers
  import opened Http
  import opened CmsDb
  import opened CmsApp

  /** A course created with both fields reads back with them and with empty lists. */
  lemma CreateThenGetCourse(s: Store, code: string, name: string)
    requires Valid(s)
    ensures var r := CreateCourse(s, Some(code), Some(name));
      && r.result.Ok?
      && GetCourse(r.store, r.result.value.id).result == Ok(CourseFull(r.result.value.id, code, name, [], [], []))
  {
  }

  /**
   * Deleting a course leaves every user readable, and no user lists the course
   * any more; no assignment of the course is left.
   */
  lemma DeleteCourseKeepsUsers(s: Store, cid: int, uid: int)
    requires Valid(s)
    requires cid in s.courses && uid in s.users
    ensures var r := DeleteCourse(s, cid);
      && GetUser(r.store, uid).result.Ok?
      && (forall i :: 0 <= i < |GetUser(r.store, uid).result.value.courses| ==>
            GetUser(r.store, uid).result.value.courses[i].id != cid)
      && (forall k :: k in r.store.assignments ==> r.store.assignments[k].courseId != cid)
  {
  }

  /** Deleting a course leaves the user lists of every other course as they were. */
  lemma DeleteCourseKeepsOtherMembers(s: Store, cid: int, c: int)
    requires Valid(s)
    requires cid in s.courses && c in s.courses && c != cid
    ensures var r := DeleteCourse(s, cid);
      && GetCourse(r.store, c).result.Ok?
      && GetCourse(r.store, c).result.value.instructors == GetCourse(s, c).result.value.instructors
      && GetCourse(r.store, c).result.value.students == GetCourse(s, c).result.value.students
  {
    var s' := DeleteCourse(s, cid).store;
    assert s' == DeleteCourseCascade(s, cid);
    assert Members(s'.association, c, s'.users) == Members(s.association, c, s.users);
  }

  /**
   * Enrolling the same user twice stores two association rows, but the course
   * lists that user once among instructors and once among students.
   */
  lemma AssignTwiceListsOnce(s: Store, cid: int, uid: int)
    requires Valid(s)
    requires cid in s.courses && uid in s.users
    ensures var r1 := AssignUserToCourse(s, cid, Some(uid));
      var r2 := AssignUserToCourse(r1.store, cid, Some(uid));
      var u := SimpleSerializeUser(uid, s.users[uid]);
      && r2.result.Ok?
      && r2.store.association == s.association + [Membership(cid, uid), Membership(cid, uid)]
      && u in r2.result.value.instructors
      && r2.result.value.instructors == r1.result.value.instructors
      && r2.result.value.students == r2.result.value.instructors
  {
  }

  /** One request to the course service, its body already parsed. */
  datatype Request =
    | PostCourse(code: Option<string>, name: Option<string>)
    | GetCourseReq(courseId: int)
    | DeleteCourseReq(courseId: int)
    | PostAssignment(courseId: int, title: Option<string>, dueDate: Option<int>)
    | PostUser(netid: Option<string>, name: Option<string>)
    | GetUserReq(userId: int)
    | AddUserReq(courseId: int, member: Option<int>)

  /** The store after one request. */
  function Apply(s: Store, q: Request): (s': Store)
    requires Valid(s)
    ensures Valid(s')
  {
    match q
    case PostCourse(c, n) => CreateCourse(s, c, n).store
    case GetCourseReq(id) => GetCourse(s, id).store
    case DeleteCourseReq(id) => DeleteCourse(s, id).store
    case PostAssignment(id, t, d) => CreateAssignment(s, id, t, d).store
    case PostUser(n, m) => CreateUser(s, n, m).store
    case GetUserReq(id) => GetUser(s, id).store
    case AddUserReq(c, u) => AssignUserToCourse(s, c, u).store
  }

  /** The store after a run of requests, from first to last. */
  function Run(s: Store, qs: seq<Request>): (s': Store)
    requires Valid(s)
    ensures Valid(s')
    decreases |qs|
  {
    if qs == [] then s else Run(Apply(s, qs[0]), qs[1..])
  }

  /** An existing assignment stays unchanged exactly as long as its course does. */
  lemma ApplyAssignmentLivesWithCourse(s: Store, q: Request, k: int)
    requires Valid(s)
    requires k in s.assignments
    ensures var s' := Apply(s, q);
      && (k in s'.assignments <==> s.assignments[k].courseId in s'.courses)
      && (k in s'.assignments ==> s'.assignments[k] == s.assignments[k])
  {
  }

  /** Only a request to delete a course removes it. */
  lemma ApplyKeepsCourse(s: Store, q: Request, cid: int)
    requires Valid(s)
    requires cid in s.courses && q != DeleteCourseReq(cid)
    ensures cid in Apply(s, q).courses && Apply(s, q).courses[cid] == s.courses[cid]
  {
  }

  /**
   * Over any run of requests that never deletes its course, an assignment
   * stays, unchanged: the cascade is the only way an assignment goes.
   */
  lemma {:induction false} RunKeepsAssignment(s: Store, qs: seq<Request>, k: int)
    requires Valid(s)
    requires k in s.assignments
    requires forall i :: 0 <= i < |qs| ==> qs[i] != DeleteCourseReq(s.assignments[k].courseId)
    ensures k in Run(s, qs).assignments && Run(s, qs).assignments[k] == s.assignments[k]
    decreases |qs|
  {
    if qs != [] {
      var s1 := Apply(s, qs[0]);
      ApplyKeepsCourse(s, qs[0], s.assignments[k].courseId);
      ApplyAssignmentLivesWithCourse(s, qs[0], k);
      assert forall i :: 0 <= i < |qs[1..]| ==> qs[1..][i] == qs[i + 1];
      RunKeepsAssignment(s1, qs[1..], k);
    }
  }

  /**
   * A course created right after the course with the largest id was deleted
   * gets an id no larger; it gets that very id again exactly when no id gap
   * sits below it.
   */
  lemma DeletedTopCourseIdReused(s: Store, cid: int, code: string, name: string)
    requires Valid(s)
    requires cid in s.courses && forall k :: k in s.courses ==> k <= cid
    ensures var r := CreateCourse(DeleteCourse(s, cid).store, Some(code), Some(name));
      && r.result.Ok?
      && r.result.value.id <= cid
      && (r.result.value.id == cid <==> cid == 1 || cid - 1 in s.courses)
  {
    var s' := DeleteCourse(s, cid).store;
    assert s'.courses == s.courses - {cid};
    var r := CreateCourse(s', Some(code), Some(name));
    var id := r.result.value.id;
    assert forall k :: k in s'.courses ==> k < id;
    assert id == 1 || id - 1 in s'.courses;
    TopIdReused(s.courses, cid, id);
  }

  /** The id one more than the largest left after removing the largest, `top`. */
  lemma TopIdReused(courses: map<int, Course>, top: int, id: int)
    requires forall k :: k in courses ==> 1 <= k <= top
    requires top in courses
    requires forall k :: k in courses - {top} ==> k < id
    requires courses - {top} == map[] ==> id == 1
    requires id == 1 || id - 1 in courses - {top}
    ensures id <= top
    ensures id == top <==> top == 1 || top - 1 in courses
  {
    if top - 1 in courses {
      assert top - 1 in courses - {top};
    }
  }

  /**
   * A concrete run: a course with an assignment is deleted and a new course
   * created. The new course gets id 1 again while assignment 1 stays gone, so
   * an assignment does not live exactly as long as its course id; the next
   * assignment takes id 1 again too.
   */
  lemma IdReuseExample()
    ensures var s1 := CreateCourse(Init(), Some("CS 1998"), Some("Intro")).store;
      var s2 := CreateAssignment(s1, 1, Some("PA1"), Some(100)).store;
      var s3 := DeleteCourse(s2, 1).store;
      var r4 := CreateCourse(s3, Some("CS 2110"), Some("OOP"));
      var r5 := CreateAssignment(r4.store, 1, Some("A1"), Some(200));
      && s2.assignments == map[1 := Assignment("PA1", 100, 1)]
      && r4.result.Ok? && r4.result.value.id == 1
      && 1 !in r4.store.assignments
      && r5.result.Ok? && r5.result.value.id == 1
      && r5.store.assignments[1] == Assignment("A1", 200, 1)
  {
    FirstCourseGetsId1("CS 1998", "Intro");
    var s1 := Store(map[1 := Course("CS 1998", "Intro")], map[], map[], []);
    FirstAssignmentGetsId1(s1, "PA1", 100);
    var s2 := s1.(assignments := map[1 := Assignment("PA1", 100, 1)]);
    DeleteOnlyCourseEmpties(Course("CS 1998", "Intro"), Assignment("PA1", 100, 1));
    FirstCourseGetsId1("CS 2110", "OOP");
    FirstAssignmentGetsId1(Store(map[1 := Course("CS 2110", "OOP")], map[], map[], []), "A1", 200);
  }

  /** In an empty store the first course gets id 1. */
  lemma FirstCourseGetsId1(code: string, name: string)
    ensures var r := CreateCourse(Init(), Some(code), Some(name));
      && r.result.Ok? && r.result.value.id == 1
      && r.store == Store(map[1 := Course(code, name)], map[], map[], [])
  {
  }

  /** With no assignments yet, the first assignment of course 1 gets id 1. */
  lemma FirstAssignmentGetsId1(s: Store, title: string, dueDate: int)
    requires Valid(s) && 1 in s.courses && s.assignments == map[]
    ensures var r := CreateAssignment(s, 1, Some(title), Some(dueDate));
      && r.result.Ok? && r.result.value.id == 1
      && r.store == s.(assignments := map[1 := Assignment(title, dueDate, 1)])
  {
  }

  /** Deleting the only course, with its only assignment, leaves the empty store. */
  lemma DeleteOnlyCourseEmpties(c: Course, a: Assignment)
    requires a.courseId == 1
    ensures DeleteCourse(Store(map[1 := c], map[1 := a], map[], []), 1).store == Init()
  {
    var s := Store(map[1 := c], map[1 := a], map[], []);
    var s' := DeleteCourse(s, 1).store;
    assert s'.courses == map[] && s'.assignments == map[] && s'.association == [];
  }
}
