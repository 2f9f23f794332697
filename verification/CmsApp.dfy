/**
 * The endpoints of the course-management service as steps over its store.
 * Request bodies arrive already parsed: a field the body leaves out is None.
 */
module CmsApp {
  import opened Wrappers
  import opened Http
  import opened Tables
  import opened CmsDb

  /** GET /api/courses/: every course, serialized, in scan order. */
  function GetCourses(s: Store): (r: seq<CourseFull>)
    ensures forall i :: 0 <= i < |r| ==> r[i].id in s.courses && r[i] == SerializeCourse(s, r[i].id)
    ensures forall i, j :: 0 <= i < j < |r| ==> r[i].id < r[j].id
    ensures Valid(s) ==> forall id :: id in s.courses ==> SerializeCourse(s, id) in r
  {
    var ids := IdsBelow(s.courses, NextRowId(s.courses));
    var r := seq(|ids|, i requires 0 <= i < |ids| => SerializeCourse(s, ids[i]));
    assert forall i :: 0 <= i < |ids| ==> r[i].id == ids[i];
    r
  }

  /** POST /api/courses/: both fields are required; a new course has no assignments and no users. */
  function CreateCourse(s: Store, code: Option<string>, name: Option<string>): (r: Reply<Store, CourseFull>)
    requires Valid(s)
    ensures Valid(r.store)
    ensures code.None? || name.None? <==> r == Reply(s, Err(Failure(BadRequest, "didn't provide code or name")))
    ensures r.result.Ok? <==> code.Some? && name.Some?
    ensures r.result.Ok? ==>
      var c := r.result.value;
      && c.id !in s.courses && (forall k :: k in s.courses ==> k < c.id)
      && (s.courses == map[] ==> c.id == 1) && (c.id == 1 || c.id - 1 in s.courses)
      && c == CourseFull(c.id, code.value, name.value, [], [], [])
      && r.store.courses == s.courses[c.id := Course(code.value, name.value)]
      && r.store.assignments == s.assignments && r.store.users == s.users
      && r.store.association == s.association
  {
    if code.None? || name.None? then Reply(s, Err(Failure(BadRequest, "didn't provide code or name")))
    else
      var (s1, id) := AddCourse(s, NewCourse(code, name));
      var c := SerializeCourse(s1, id);
      Reply(s1, Ok(c))
  }

  /** GET /api/courses/{id}/. */
  function GetCourse(s: Store, id: int): (r: Reply<Store, CourseFull>)
    ensures r.store == s
    ensures id !in s.courses <==> r.result == Err(Failure(NotFound, "course not found"))
    ensures id in s.courses ==> r.result == Ok(SerializeCourse(s, id))
  {
    if id !in s.courses then Reply(s, Err(Failure(NotFound, "course not found")))
    else Reply(s, Ok(SerializeCourse(s, id)))
  }

  /**
   * DELETE /api/courses/{id}/: removes the course, its assignments and its
   * association rows, and answers with the course as it was before.
   */
  function DeleteCourse(s: Store, id: int): (r: Reply<Store, CourseFull>)
    requires Valid(s)
    ensures Valid(r.store)
    ensures id !in s.courses <==> r == Reply(s, Err(Failure(NotFound, "course not found")))
    ensures id in s.courses ==>
      && r.result == Ok(SerializeCourse(s, id))
      && r.store.courses == s.courses - {id}
      && (forall k :: k in r.store.assignments <==> k in s.assignments && s.assignments[k].courseId != id)
      && (forall k :: k in r.store.assignments ==> r.store.assignments[k] == s.assignments[k])
      && (forall i :: 0 <= i < |r.store.association| ==> r.store.association[i].courseId != id)
      && (forall x: Membership :: x.courseId != id ==> multiset(r.store.association)[x] == multiset(s.association)[x])
      && r.store.users == s.users
  {
    if id !in s.courses then Reply(s, Err(Failure(NotFound, "course not found")))
    else
      var before := SerializeCourse(s, id);
      Reply(DeleteCourseCascade(s, id), Ok(before))
  }

  /**
   * POST /api/courses/{id}/assignment/: the course is checked before the body.
   * The answer carries the course's simple form as it was at creation; it lives
   * on the new object only and is not a column.
   */
  function CreateAssignment(s: Store, courseId: int, title: Option<string>, dueDate: Option<int>)
    : (r: Reply<Store, AssignmentFull>)
    requires Valid(s)
    ensures Valid(r.store)
    ensures courseId !in s.courses ==> r == Reply(s, Err(Failure(NotFound, "course not found")))
    ensures courseId in s.courses && (title.None? || dueDate.None?) ==>
      r == Reply(s, Err(Failure(BadRequest, "didn't provide info")))
    ensures r.result.Ok? <==> courseId in s.courses && title.Some? && dueDate.Some?
    ensures r.result.Ok? ==>
      var a := r.result.value;
      && a.id !in s.assignments && (forall k :: k in s.assignments ==> k < a.id)
      && (s.assignments == map[] ==> a.id == 1) && (a.id == 1 || a.id - 1 in s.assignments)
      && a == AssignmentFull(a.id, title.value, dueDate.value, SimpleSerializeCourse(courseId, s.courses[courseId]))
      && r.store.assignments == s.assignments[a.id := Assignment(title.value, dueDate.value, courseId)]
      && r.store.courses == s.courses && r.store.users == s.users && r.store.association == s.association
  {
    if courseId !in s.courses then Reply(s, Err(Failure(NotFound, "course not found")))
    else if title.None? || dueDate.None? then Reply(s, Err(Failure(BadRequest, "didn't provide info")))
    else
      var snapshot := SimpleSerializeCourse(courseId, s.courses[courseId]);
      var a := NewAssignment(title, dueDate, courseId);
      var (s1, id) := AddAssignment(s, a);
      Reply(s1, Ok(SerializeAssignment(id, a, snapshot)))
  }

  /** POST /api/users/: both fields are required; a new user is in no course. */
  function CreateUser(s: Store, netid: Option<string>, name: Option<string>): (r: Reply<Store, UserFull>)
    requires Valid(s)
    ensures Valid(r.store)
    ensures netid.None? || name.None? <==> r == Reply(s, Err(Failure(BadRequest, "didn't provide netid or name")))
    ensures r.result.Ok? <==> netid.Some? && name.Some?
    ensures r.result.Ok? ==>
      var u := r.result.value;
      && u.id !in s.users && (forall k :: k in s.users ==> k < u.id)
      && (s.users == map[] ==> u.id == 1) && (u.id == 1 || u.id - 1 in s.users)
      && u == UserFull(u.id, name.value, netid.value, [])
      && r.store.users == s.users[u.id := User(name.value, netid.value)]
      && r.store.courses == s.courses && r.store.assignments == s.assignments
      && r.store.association == s.association
  {
    if netid.None? || name.None? then Reply(s, Err(Failure(BadRequest, "didn't provide netid or name")))
    else
      var (s1, id) := AddUser(s, NewUser(name, netid));
      Reply(s1, Ok(SerializeUser(s1, id)))
  }

  /** GET /api/users/{id}/. */
  function GetUser(s: Store, id: int): (r: Reply<Store, UserFull>)
    ensures r.store == s
    ensures id !in s.users <==> r.result == Err(Failure(NotFound, "user not found"))
    ensures id in s.users ==> r.result == Ok(SerializeUser(s, id))
  {
    if id !in s.users then Reply(s, Err(Failure(NotFound, "user not found")))
    else Reply(s, Ok(SerializeUser(s, id)))
  }

  /**
   * POST /api/courses/{id}/add/: 404 for a missing course, then 400 for a
   * missing user; otherwise one more association row, even for a user already
   * in the course, who is still listed once. The "type" field of the body is
   * read and ignored.
   */
  function AssignUserToCourse(s: Store, courseId: int, userId: Option<int>): (r: Reply<Store, CourseFull>)
    requires Valid(s)
    ensures Valid(r.store)
    ensures courseId !in s.courses ==> r == Reply(s, Err(Failure(NotFound, "course not found")))
    ensures courseId in s.courses && (userId.None? || userId.value !in s.users) ==>
      r == Reply(s, Err(Failure(BadRequest, "cannot find this user")))
    ensures r.result.Ok? <==> courseId in s.courses && userId.Some? && userId.value in s.users
    ensures r.result.Ok? ==>
      var (c, before) := (r.result.value, SerializeCourse(s, courseId));
      var added := SimpleSerializeUser(userId.value, s.users[userId.value]);
      && CourseSimple(c.id, c.code, c.name) == CourseSimple(before.id, before.code, before.name)
      && c.assignments == before.assignments
      && c.students == c.instructors
      && (Membership(courseId, userId.value) in s.association ==> c.instructors == before.instructors)
      && (Membership(courseId, userId.value) !in s.association ==> c.instructors == before.instructors + [added])
      && r.store.association == s.association + [Membership(courseId, userId.value)]
      && r.store.courses == s.courses && r.store.assignments == s.assignments && r.store.users == s.users
  {
    if courseId !in s.courses then Reply(s, Err(Failure(NotFound, "course not found")))
    else if userId.None? || userId.value !in s.users then Reply(s, Err(Failure(BadRequest, "cannot find this user")))
    else
      var s1 := AppendMember(s, courseId, userId.value);
      MembersAppend(s.association, Membership(courseId, userId.value), courseId, s.users);
      MembersExactly(s.association, courseId, s.users, userId.value);
      UserListAppend(s.users, Members(s.association, courseId, s.users), userId.value);
      Reply(s1, Ok(SerializeCourse(s1, courseId)))
  }
}
