/**
 * The course-management store: the courses, assignments and users tables, the
 * association table joining courses to users, the records' constructors and
 * their JSON shapes. Tables are maps from id to row; a new row gets the id
 * sqlite gives it (one more than the largest in use). The association table is
 * a sequence of rows in insertion order.
 */
module CmsDb {
  import opened Wrappers
  import opened Tables

  datatype Course = Course(code: string, name: string)

  /** An assignments row; `courseId` is NOT NULL and names a course. */
  datatype Assignment = Assignment(title: string, dueDate: int, courseId: int)

  datatype User = User(name: string, netid: string)

  /** One row of the association table. No uniqueness constraint applies. */
  datatype Membership = Membership(courseId: int, userId: int)

  datatype Store = Store(courses: map<int, Course>, assignments: map<int, Assignment>,
                         users: map<int, User>, association: seq<Membership>)

  /** Course.simple_serialize: id, code and name only. */
  datatype CourseSimple = CourseSimple(id: int, code: string, name: string)

  /** Assignment.simple_serialize: no course. */
  datatype AssignmentSimple = AssignmentSimple(id: int, title: string, dueDate: int)

  /** Assignment.serialize: with the course snapshot the object was built with. */
  datatype AssignmentFull = AssignmentFull(id: int, title: string, dueDate: int, course: CourseSimple)

  /** User.simple_serialize: no courses. */
  datatype UserSimple = UserSimple(id: int, name: string, netid: string)

  /** User.serialize. */
  datatype UserFull = UserFull(id: int, name: string, netid: string, courses: seq<CourseSimple>)

  /** Course.serialize. */
  datatype CourseFull = CourseFull(id: int, code: string, name: string, assignments: seq<AssignmentSimple>,
                                   instructors: seq<UserSimple>, students: seq<UserSimple>)

  /**
   * Ids are positive; every assignment names an existing course; every
   * association row names an existing course and user.
   */
  ghost predicate Valid(s: Store) {
    && (forall id :: id in s.courses ==> 1 <= id)
    && (forall id :: id in s.assignments ==> 1 <= id)
    && (forall id :: id in s.users ==> 1 <= id)
    && (forall id :: id in s.assignments ==> s.assignments[id].courseId in s.courses)
    && (forall i :: 0 <= i < |s.association| ==>
          s.association[i].courseId in s.courses && s.association[i].userId in s.users)
  }

  /** The empty tables create_all makes in a fresh database file. */
  function Init(): (s: Store)
    ensures Valid(s)
  {
    Store(map[], map[], map[], [])
  }

  /** Course(code=..., name=...): an argument left out defaults to "". */
  function NewCourse(code: Option<string>, name: Option<string>): (c: Course)
    ensures code.Some? ==> c.code == code.value
    ensures code.None? ==> c.code == ""
    ensures name.Some? ==> c.name == name.value
    ensures name.None? ==> c.name == ""
  {
    Course(code.GetOr(""), name.GetOr(""))
  }

  /** Assignment(title=..., due_date=..., course_id=...): title defaults to "", due_date to 0. */
  function NewAssignment(title: Option<string>, dueDate: Option<int>, courseId: int): (a: Assignment)
    ensures title.Some? ==> a.title == title.value
    ensures title.None? ==> a.title == ""
    ensures dueDate.Some? ==> a.dueDate == dueDate.value
    ensures dueDate.None? ==> a.dueDate == 0
    ensures a.courseId == courseId
  {
    Assignment(title.GetOr(""), dueDate.GetOr(0), courseId)
  }

  /** User(name=..., netid=...): an argument left out defaults to "". */
  function NewUser(name: Option<string>, netid: Option<string>): (u: User)
    ensures name.Some? ==> u.name == name.value
    ensures name.None? ==> u.name == ""
    ensures netid.Some? ==> u.netid == netid.value
    ensures netid.None? ==> u.netid == ""
  {
    User(name.GetOr(""), netid.GetOr(""))
  }

  /** The ids among `ids` of the assignments of course `cid`, in the order of `ids`. */
  function SelectAssignments(assignments: map<int, Assignment>, ids: seq<int>, cid: int): (r: seq<int>)
    ensures forall i :: 0 <= i < |r| ==> r[i] in ids && r[i] in assignments && assignments[r[i]].courseId == cid
    ensures forall k :: k in ids && k in assignments && assignments[k].courseId == cid ==> k in r
    ensures (forall k :: k in assignments ==> assignments[k].courseId != cid) ==> r == []
    ensures (forall i, j :: 0 <= i < j < |ids| ==> ids[i] < ids[j]) ==> forall i, j :: 0 <= i < j < |r| ==> r[i] < r[j]
  {
    if ids == [] then []
    else
      var k := ids[0];
      (if k in assignments && assignments[k].courseId == cid then [k] else [])
        + SelectAssignments(assignments, ids[1..], cid)
  }

  /** Course.assignments: the assignments whose course_id is `cid`, in scan order. */
  function CourseAssignmentIds(s: Store, cid: int): (r: seq<int>)
    ensures forall i :: 0 <= i < |r| ==> r[i] in s.assignments && s.assignments[r[i]].courseId == cid
    ensures forall i, j :: 0 <= i < j < |r| ==> r[i] < r[j]
    ensures Valid(s) ==> forall k :: k in s.assignments && s.assignments[k].courseId == cid ==> k in r
  {
    SelectAssignments(s.assignments, IdsBelow(s.assignments, NextRowId(s.assignments)), cid)
  }

  /**
   * Course.users: the users that association rows join to course `cid`, each
   * once, in the order of its first row. The relationship loader returns each
   * mapped object once, however many rows join it.
   */
  function Members(rows: seq<Membership>, cid: int, users: map<int, User>): (r: seq<int>)
    decreases |rows|
    ensures forall i :: 0 <= i < |r| ==> r[i] in users && Membership(cid, r[i]) in rows
    ensures forall i :: 0 <= i < |rows| && rows[i].courseId == cid && rows[i].userId in users ==> rows[i].userId in r
    ensures forall i, j :: 0 <= i < j < |r| ==> r[i] != r[j]
    ensures (forall i :: 0 <= i < |rows| ==> rows[i].courseId != cid) ==> r == []
  {
    if rows == [] then []
    else
      var prev := Members(rows[..|rows| - 1], cid, users);
      var m := rows[|rows| - 1];
      assert forall i :: 0 <= i < |rows| - 1 ==> rows[..|rows| - 1][i] == rows[i];
      if m.courseId == cid && m.userId in users && m.userId !in prev then prev + [m.userId] else prev
  }

  /**
   * User.courses: the courses that association rows join to user `uid`, each
   * once, in the order of its first row.
   */
  function CoursesOf(rows: seq<Membership>, uid: int, courses: map<int, Course>): (r: seq<int>)
    decreases |rows|
    ensures forall i :: 0 <= i < |r| ==> r[i] in courses && Membership(r[i], uid) in rows
    ensures forall i :: 0 <= i < |rows| && rows[i].userId == uid && rows[i].courseId in courses ==> rows[i].courseId in r
    ensures forall i, j :: 0 <= i < j < |r| ==> r[i] != r[j]
    ensures (forall i :: 0 <= i < |rows| ==> rows[i].userId != uid) ==> r == []
  {
    if rows == [] then []
    else
      var prev := CoursesOf(rows[..|rows| - 1], uid, courses);
      var m := rows[|rows| - 1];
      assert forall i :: 0 <= i < |rows| - 1 ==> rows[..|rows| - 1][i] == rows[i];
      if m.userId == uid && m.courseId in courses && m.courseId !in prev then prev + [m.courseId] else prev
  }

  function SimpleSerializeCourse(id: int, c: Course): CourseSimple {
    CourseSimple(id, c.code, c.name)
  }

  function SimpleSerializeAssignment(id: int, a: Assignment): AssignmentSimple {
    AssignmentSimple(id, a.title, a.dueDate)
  }

  function SimpleSerializeUser(id: int, u: User): UserSimple {
    UserSimple(id, u.name, u.netid)
  }

  /** Assignment.serialize: the simple form plus the course snapshot. */
  function SerializeAssignment(id: int, a: Assignment, snapshot: CourseSimple): (r: AssignmentFull)
    ensures AssignmentSimple(r.id, r.title, r.dueDate) == SimpleSerializeAssignment(id, a)
    ensures r.course == snapshot
  {
    AssignmentFull(id, a.title, a.dueDate, snapshot)
  }

  /** The simple forms of the users `ids`. */
  function UserList(users: map<int, User>, ids: seq<int>): (r: seq<UserSimple>)
    requires forall i :: 0 <= i < |ids| ==> ids[i] in users
    ensures |r| == |ids|
    ensures forall i :: 0 <= i < |ids| ==> r[i] == SimpleSerializeUser(ids[i], users[ids[i]])
  {
    seq(|ids|, i requires 0 <= i < |ids| => SimpleSerializeUser(ids[i], users[ids[i]]))
  }

  /**
   * Course.serialize: its simple form, the simple forms of its assignments, and
   * the simple forms of its users twice, once as "instructors" and once as "students".
   */
  function SerializeCourse(s: Store, id: int): (r: CourseFull)
    requires id in s.courses
    ensures CourseSimple(r.id, r.code, r.name) == SimpleSerializeCourse(id, s.courses[id])
    ensures r.instructors == r.students
    ensures r.instructors == UserList(s.users, Members(s.association, id, s.users))
    ensures var ids := CourseAssignmentIds(s, id);
      && |r.assignments| == |ids|
      && forall i :: 0 <= i < |ids| ==> r.assignments[i] == SimpleSerializeAssignment(ids[i], s.assignments[ids[i]])
  {
    var ids := CourseAssignmentIds(s, id);
    var members := UserList(s.users, Members(s.association, id, s.users));
    CourseFull(id, s.courses[id].code, s.courses[id].name,
               seq(|ids|, i requires 0 <= i < |ids| => SimpleSerializeAssignment(ids[i], s.assignments[ids[i]])),
               members, members)
  }

  /** User.serialize: its simple form plus the simple forms of its courses. */
  function SerializeUser(s: Store, id: int): (r: UserFull)
    requires id in s.users
    ensures UserSimple(r.id, r.name, r.netid) == SimpleSerializeUser(id, s.users[id])
    ensures var cs := CoursesOf(s.association, id, s.courses);
      && |r.courses| == |cs|
      && forall i :: 0 <= i < |cs| ==> r.courses[i] == SimpleSerializeCourse(cs[i], s.courses[cs[i]])
  {
    var cs := CoursesOf(s.association, id, s.courses);
    UserFull(id, s.users[id].name, s.users[id].netid,
             seq(|cs|, i requires 0 <= i < |cs| => SimpleSerializeCourse(cs[i], s.courses[cs[i]])))
  }

  /**
   * session.add of a new course and commit: its id is one more than the
   * largest course id in use, 1 in an empty table.
   */
  function AddCourse(s: Store, c: Course): (r: (Store, int))
    ensures r.0.courses == s.courses[r.1 := c]
    ensures r.0.assignments == s.assignments && r.0.users == s.users && r.0.association == s.association
    ensures r.1 !in s.courses && forall k :: k in s.courses ==> k < r.1
    ensures s.courses == map[] ==> r.1 == 1
    ensures s.courses != map[] ==> r.1 - 1 in s.courses
    ensures Valid(s) ==> Valid(r.0)
  {
    var id := NextRowId(s.courses);
    (s.(courses := s.courses[id := c]), id)
  }

  /**
   * session.add of a new assignment and commit: its id is one more than the
   * largest assignment id in use, 1 in an empty table.
   */
  function AddAssignment(s: Store, a: Assignment): (r: (Store, int))
    ensures r.0.assignments == s.assignments[r.1 := a]
    ensures r.0.courses == s.courses && r.0.users == s.users && r.0.association == s.association
    ensures r.1 !in s.assignments && forall k :: k in s.assignments ==> k < r.1
    ensures s.assignments == map[] ==> r.1 == 1
    ensures s.assignments != map[] ==> r.1 - 1 in s.assignments
    ensures Valid(s) && a.courseId in s.courses ==> Valid(r.0)
  {
    var id := NextRowId(s.assignments);
    (s.(assignments := s.assignments[id := a]), id)
  }

  /**
   * session.add of a new user and commit: its id is one more than the largest
   * user id in use, 1 in an empty table.
   */
  function AddUser(s: Store, u: User): (r: (Store, int))
    ensures r.0.users == s.users[r.1 := u]
    ensures r.0.courses == s.courses && r.0.assignments == s.assignments && r.0.association == s.association
    ensures r.1 !in s.users && forall k :: k in s.users ==> k < r.1
    ensures s.users == map[] ==> r.1 == 1
    ensures s.users != map[] ==> r.1 - 1 in s.users
    ensures Valid(s) ==> Valid(r.0)
  {
    var id := NextRowId(s.users);
    (s.(users := s.users[id := u]), id)
  }

  /** The association rows that do not belong to course `cid`, in order. */
  function DropCourseRows(rows: seq<Membership>, cid: int): (r: seq<Membership>)
    decreases |rows|
    ensures forall i :: 0 <= i < |r| ==> r[i] in rows && r[i].courseId != cid
    ensures forall x: Membership :: multiset(r)[x] == if x.courseId == cid then 0 else multiset(rows)[x]
  {
    if rows == [] then []
    else
      var last := rows[|rows| - 1];
      assert rows == rows[..|rows| - 1] + [last];
      DropCourseRows(rows[..|rows| - 1], cid) + (if last.courseId != cid then [last] else [])
  }

  /**
   * session.delete of a course and commit: the "delete" cascade removes its
   * assignments and the relationship removes its association rows; users stay.
   */
  function DeleteCourseCascade(s: Store, cid: int): (s': Store)
    ensures s'.courses == s.courses - {cid}
    ensures forall k :: k in s'.assignments <==> k in s.assignments && s.assignments[k].courseId != cid
    ensures forall k :: k in s'.assignments ==> s'.assignments[k] == s.assignments[k]
    ensures forall i :: 0 <= i < |s'.association| ==> s'.association[i].courseId != cid
    ensures forall x: Membership :: x.courseId != cid ==> multiset(s'.association)[x] == multiset(s.association)[x]
    ensures forall c :: c != cid ==> Members(s'.association, c, s'.users) == Members(s.association, c, s.users)
    ensures s'.users == s.users
    ensures Valid(s) ==> Valid(s')
  {
    MembersDropAll(s.association, cid, s.users);
    s.(courses := s.courses - {cid},
       assignments := map k | k in s.assignments && s.assignments[k].courseId != cid :: s.assignments[k],
       association := DropCourseRows(s.association, cid))
  }

  /** course.users.append(user) and commit: one more association row, with no check for an existing one. */
  function AppendMember(s: Store, cid: int, uid: int): (s': Store)
    ensures s'.association == s.association + [Membership(cid, uid)]
    ensures s'.courses == s.courses && s'.assignments == s.assignments && s'.users == s.users
    ensures Valid(s) && cid in s.courses && uid in s.users ==> Valid(s')
  {
    s.(association := s.association + [Membership(cid, uid)])
  }

  /**
   * One more association row adds its user at the end of the course's list,
   * unless the user is listed already.
   */
  lemma MembersAppend(rows: seq<Membership>, m: Membership, cid: int, users: map<int, User>)
    ensures var before := Members(rows, cid, users);
      Members(rows + [m], cid, users)
        == before + (if m.courseId == cid && m.userId in users && m.userId !in before then [m.userId] else [])
  {
    assert (rows + [m])[..|rows|] == rows;
  }

  /** A user is listed for a course exactly when an association row joins them. */
  lemma MembersExactly(rows: seq<Membership>, cid: int, users: map<int, User>, uid: int)
    requires uid in users
    ensures uid in Members(rows, cid, users) <==> Membership(cid, uid) in rows
  {
    if Membership(cid, uid) in rows {
      var i :| 0 <= i < |rows| && rows[i] == Membership(cid, uid);
    }
  }

  /** Dropping the rows of course `cid` leaves the list of any other course as it was. */
  lemma {:induction false} MembersDrop(rows: seq<Membership>, cid: int, c: int, users: map<int, User>)
    requires c != cid
    decreases |rows|
    ensures Members(DropCourseRows(rows, cid), c, users) == Members(rows, c, users)
  {
    if rows != [] {
      var init, last := rows[..|rows| - 1], rows[|rows| - 1];
      assert rows == init + [last];
      MembersDrop(init, cid, c, users);
      var dropped := DropCourseRows(init, cid);
      assert DropCourseRows(rows, cid) == dropped + (if last.courseId != cid then [last] else []);
      MembersAppend(init, last, c, users);
      if last.courseId != cid {
        MembersAppend(dropped, last, c, users);
      } else {
        assert DropCourseRows(rows, cid) == dropped;
      }
    }
  }

  /** MembersDrop for every other course at once. */
  lemma MembersDropAll(rows: seq<Membership>, cid: int, users: map<int, User>)
    ensures forall c :: c != cid ==> Members(DropCourseRows(rows, cid), c, users) == Members(rows, c, users)
  {
    forall c | c != cid ensures Members(DropCourseRows(rows, cid), c, users) == Members(rows, c, users) {
      MembersDrop(rows, cid, c, users);
    }
  }

  /** Listing one more user appends its simple form. */
  lemma UserListAppend(users: map<int, User>, ids: seq<int>, u: int)
    requires forall i :: 0 <= i < |ids| ==> ids[i] in users
    requires u in users
    ensures UserList(users, ids + [u]) == UserList(users, ids) + [SimpleSerializeUser(u, users[u])]
  {
    var l := UserList(users, ids + [u]);
    var r := UserList(users, ids) + [SimpleSerializeUser(u, users[u])];
    assert |l| == |r|;
    forall i | 0 <= i < |l| ensures l[i] == r[i] {
      if i < |ids| {
        assert (ids + [u])[i] == ids[i];
      }
    }
  }
}
