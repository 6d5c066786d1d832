/** Course access control: administrators reach everything, other users
    only the courses they are enrolled in, those courses' files, and the
    categories holding at least one of them. Enrolling and unenrolling add
    and remove rows of the `enrollments` table. */
module AuthorizationService {
  import opened Common
  import opened Ordering
  import opened FileNodeModel

  /** One row of `users`. */
  datatype User = User(id: nat, username: string, email: string, hashedPassword: string, isAdmin: bool)

  /** One row of `courses`. */
  datatype Course = Course(id: nat, categoryId: nat, name: string, path: string)

  /** One row of `enrollments`. */
  datatype Enrollment = Enrollment(id: nat, userId: nat, courseId: nat, role: string)

  const AlreadyEnrolledMessage: string := "User already enrolled in this course"

  predicate Enrolled(enrollments: seq<Enrollment>, userId: nat, courseId: nat)
  {
    exists e :: e in enrollments && e.userId == userId && e.courseId == courseId
  }

  /** The table's unique constraint on (user_id, course_id). */
  predicate UniquePairs(enrollments: seq<Enrollment>)
  {
    forall i, j :: 0 <= i < |enrollments| && 0 <= j < |enrollments|
      && enrollments[i].userId == enrollments[j].userId && enrollments[i].courseId == enrollments[j].courseId
      ==> i == j
  }

  /** Position of the first enrollment of the pair, or -1: the row
      `.first()` returns. */
  function FindEnrollment(enrollments: seq<Enrollment>, userId: nat, courseId: nat): (r: int)
    ensures -1 <= r < |enrollments|
    ensures r >= 0 ==> enrollments[r].userId == userId && enrollments[r].courseId == courseId
    ensures r < 0 <==> !Enrolled(enrollments, userId, courseId)
    ensures forall k :: 0 <= k < r ==> !(enrollments[k].userId == userId && enrollments[k].courseId == courseId)
    decreases |enrollments|
  {
    if |enrollments| == 0 then -1
    else if enrollments[0].userId == userId && enrollments[0].courseId == courseId then 0
    else
      var r := FindEnrollment(enrollments[1..], userId, courseId);
      assert forall e :: e in enrollments ==> e == enrollments[0] || e in enrollments[1..];
      if r < 0 then -1 else r + 1
  }

  /** The first file row with the id, as `.first()` returns it. */
  function FindFile(files: seq<FileNode>, fileId: nat): (r: Option<FileNode>)
    ensures r.Some? ==> r.value in files && r.value.id == fileId
    ensures r.None? ==> forall f :: f in files ==> f.id != fileId
    decreases |files|
  {
    if |files| == 0 then None
    else if files[0].id == fileId then Some(files[0])
    else
      var r := FindFile(files[1..], fileId);
      assert r.None? ==> forall f :: f in files ==> f == files[0] || f in files[1..];
      r
  }

  /** The course row with the id exists and lies in the category. */
  function CourseInCategory(courses: seq<Course>, courseId: nat, categoryId: nat): (r: bool)
    ensures r <==> exists c :: c in courses && c.id == courseId && c.categoryId == categoryId
    decreases |courses|
  {
    if |courses| == 0 then false
    else if courses[0].id == courseId && courses[0].categoryId == categoryId then true
    else
      var r := CourseInCategory(courses[1..], courseId, categoryId);
      assert forall c :: c in courses ==> c == courses[0] || c in courses[1..];
      r
  }

  /** The join of `can_access_category`: an enrollment of the user whose
      course lies in the category. */
  function EnrolledInCategory(enrollments: seq<Enrollment>, courses: seq<Course>, userId: nat, categoryId: nat): (r: bool)
    ensures r <==> exists e, c :: e in enrollments && c in courses && e.userId == userId
                                 && e.courseId == c.id && c.categoryId == categoryId
    decreases |enrollments|
  {
    if |enrollments| == 0 then false
    else
      var e := enrollments[0];
      var here := e.userId == userId && CourseInCategory(courses, e.courseId, categoryId);
      var r := here || EnrolledInCategory(enrollments[1..], courses, userId, categoryId);
      assert forall x :: x in enrollments ==> x == e || x in enrollments[1..];
      r
  }

  /** The course ids of the enrollments of a user, in table order. */
  function EnrolledCourseIds(enrollments: seq<Enrollment>, userId: nat): (r: seq<nat>)
    ensures forall x :: x in r <==> Enrolled(enrollments, userId, x)
    ensures |r| <= |enrollments|
    decreases |enrollments|
  {
    if |enrollments| == 0 then []
    else
      var rest := EnrolledCourseIds(enrollments[1..], userId);
      assert forall e :: e in enrollments ==> e == enrollments[0] || e in enrollments[1..];
      if enrollments[0].userId == userId then [enrollments[0].courseId] + rest else rest
  }

  function CourseIds(courses: seq<Course>): (r: seq<nat>)
    ensures |r| == |courses| && forall k :: 0 <= k < |r| ==> r[k] == courses[k].id
  {
    seq(|courses|, k requires 0 <= k < |courses| => courses[k].id)
  }

  lemma CourseIdsMembers(courses: seq<Course>)
    ensures forall id :: id in CourseIds(courses) <==> exists c :: c in courses && c.id == id
  {
    var ids := CourseIds(courses);
    assert forall id :: id in ids ==> exists k :: 0 <= k < |courses| && courses[k].id == id;
    forall c | c in courses
      ensures c.id in ids
    {
      var k :| 0 <= k < |courses| && courses[k] == c;
      assert ids[k] == c.id;
    }
  }

  /** The courses visible to a user, before ordering: all of them for an
      administrator, else the enrolled ones; narrowed to the category when
      a truthy category id is given. */
  function VisibleCourses(courses: seq<Course>, enrollments: seq<Enrollment>, user: User, categoryId: Option<nat>): (r: seq<Course>)
    ensures forall c :: c in r <==>
              c in courses && (user.isAdmin || Enrolled(enrollments, user.id, c.id))
              && (categoryId.Some? && categoryId.value != 0 ==> c.categoryId == categoryId.value)
    ensures |r| <= |courses|
    decreases |courses|
  {
    if |courses| == 0 then []
    else
      var c := courses[0];
      var rest := VisibleCourses(courses[1..], enrollments, user, categoryId);
      var keep := (user.isAdmin || FindEnrollment(enrollments, user.id, c.id) >= 0)
                  && (categoryId.None? || categoryId.value == 0 || c.categoryId == categoryId.value);
      assert forall x :: x in courses ==> x == c || x in courses[1..];
      if keep then [c] + rest else rest
  }

  /** The order `ORDER BY courses.name` sorts by, given the order on names. */
  function ByCourseName(nameLe: (string, string) -> bool): (Course, Course) -> bool
  {
    (a: Course, b: Course) => nameLe(a.name, b.name)
  }

  lemma CourseOrderIsPreorder(nameLe: (string, string) -> bool)
    requires TotalPreorder(nameLe)
    ensures TotalPreorder(ByCourseName(nameLe))
  {
    var le := ByCourseName(nameLe);
    forall a: Course, b: Course, c: Course | le(a, b) && le(b, c)
      ensures le(a, c)
    {
      assert nameLe(a.name, b.name) && nameLe(b.name, c.name);
    }
    forall a: Course, b: Course
      ensures le(a, b) || le(b, a)
    {
      assert nameLe(a.name, b.name) || nameLe(b.name, a.name);
    }
  }

  /** The enrollments after `enroll_user` succeeds. */
  function WithEnrollment(enrollments: seq<Enrollment>, id: nat, userId: nat, courseId: nat, role: string): seq<Enrollment>
  {
    enrollments + [Enrollment(id, userId, courseId, role)]
  }

  /** The enrollments after `unenroll_user`: the row `.first()` found goes. */
  function WithoutEnrollment(enrollments: seq<Enrollment>, userId: nat, courseId: nat): seq<Enrollment>
  {
    var i := FindEnrollment(enrollments, userId, courseId);
    if i < 0 then enrollments else enrollments[..i] + enrollments[i + 1..]
  }

  /** Enrolling a pair not yet enrolled keeps the pairs unique and grants
      access; unenrolling it again gives back the table as it was, so the
      user loses access unless they are an administrator. */
  lemma EnrollUnenrollRoundTrip(enrollments: seq<Enrollment>, id: nat, userId: nat, courseId: nat, role: string)
    requires !Enrolled(enrollments, userId, courseId)
    ensures var after := WithEnrollment(enrollments, id, userId, courseId, role);
      && Enrolled(after, userId, courseId)
      && (UniquePairs(enrollments) ==> UniquePairs(after))
      && WithoutEnrollment(after, userId, courseId) == enrollments
  {
    var e := Enrollment(id, userId, courseId, role);
    var after := enrollments + [e];
    AppendedIsOnlyMatch(enrollments, e);
    assert after[|enrollments|] in after;
    var i := FindEnrollment(after, userId, courseId);
    assert i == |enrollments|;
    assert after[..i] == enrollments && after[i + 1..] == [];
  }

  /** No row before an appended one has its pair when the pair was not
      enrolled. */
  lemma AppendedIsOnlyMatch(enrollments: seq<Enrollment>, e: Enrollment)
    requires !Enrolled(enrollments, e.userId, e.courseId)
    ensures forall k :: 0 <= k < |enrollments| ==>
              (enrollments + [e])[k] == enrollments[k] && !(enrollments[k].userId == e.userId && enrollments[k].courseId == e.courseId)
  {
    forall k | 0 <= k < |enrollments|
      ensures !(enrollments[k].userId == e.userId && enrollments[k].courseId == e.courseId)
    {
      assert enrollments[k] in enrollments;
    }
  }

  /** Positions in a sequence with one element taken out. */
  lemma RemoveAt(s: seq<Enrollment>, i: nat)
    requires i < |s|
    ensures var t := s[..i] + s[i + 1..];
      && |t| == |s| - 1
      && (forall k :: 0 <= k < i ==> t[k] == s[k])
      && (forall k :: i <= k < |t| ==> t[k] == s[k + 1])
  {
  }

  /** With unique pairs, unenrolling removes the user's only enrollment in
      the course, and nothing else. */
  lemma UnenrollRevokes(enrollments: seq<Enrollment>, userId: nat, courseId: nat)
    requires UniquePairs(enrollments)
    ensures var after := WithoutEnrollment(enrollments, userId, courseId);
      && !Enrolled(after, userId, courseId)
      && (forall e :: e in enrollments && !(e.userId == userId && e.courseId == courseId) ==> e in after)
      && (forall e :: e in after ==> e in enrollments)
      && UniquePairs(after)
  {
    var i := FindEnrollment(enrollments, userId, courseId);
    if i >= 0 {
      var after := enrollments[..i] + enrollments[i + 1..];
      UnenrollKeepsOthers(enrollments, i, after);
      RemovedStaysUnique(enrollments, i, after);
    }
  }

  /** Taking a row out of a table with unique pairs leaves the pairs unique
      and its pair absent. */
  lemma RemovedStaysUnique(enrollments: seq<Enrollment>, i: nat, after: seq<Enrollment>)
    requires UniquePairs(enrollments) && i < |enrollments| && after == enrollments[..i] + enrollments[i + 1..]
    ensures UniquePairs(after)
    ensures !Enrolled(after, enrollments[i].userId, enrollments[i].courseId)
  {
    RemoveAt(enrollments, i);
    forall a, b | 0 <= a < |after| && 0 <= b < |after|
                  && after[a].userId == after[b].userId && after[a].courseId == after[b].courseId
      ensures a == b
    {
      var ja := if a < i then a else a + 1;
      var jb := if b < i then b else b + 1;
      assert enrollments[ja] == after[a] && enrollments[jb] == after[b];
    }
    forall e | e in after
      ensures !(e.userId == enrollments[i].userId && e.courseId == enrollments[i].courseId)
    {
      var k :| 0 <= k < |after| && after[k] == e;
      var j := if k < i then k else k + 1;
      assert enrollments[j] == e;
    }
  }

  /** Taking out position `i` keeps every row that differs from it in
      (user, course) and adds none. */
  lemma UnenrollKeepsOthers(enrollments: seq<Enrollment>, i: nat, after: seq<Enrollment>)
    requires i < |enrollments| && after == enrollments[..i] + enrollments[i + 1..]
    ensures forall e :: e in enrollments && !(e.userId == enrollments[i].userId && e.courseId == enrollments[i].courseId)
              ==> e in after
    ensures forall e :: e in after ==> e in enrollments
  {
    RemoveAt(enrollments, i);
    forall e | e in enrollments && !(e.userId == enrollments[i].userId && e.courseId == enrollments[i].courseId)
      ensures e in after
    {
      var k :| 0 <= k < |enrollments| && enrollments[k] == e;
      if k < i {
        assert after[k] == e;
      } else {
        assert after[k - 1] == e;
      }
    }
  }

  /** The authorization service over the `courses`, `file_nodes` and
      `enrollments` tables. */
  class AuthorizationService {
    var courses: seq<Course>
    var files: seq<FileNode>
    var enrollments: seq<Enrollment>
    var nextEnrollmentId: nat

    constructor (courses: seq<Course>, files: seq<FileNode>, enrollments: seq<Enrollment>, nextEnrollmentId: nat)
      ensures this.courses == courses && this.files == files && this.enrollments == enrollments
      ensures this.nextEnrollmentId == nextEnrollmentId
    {
      this.courses := courses;
      this.files := files;
      this.enrollments := enrollments;
      this.nextEnrollmentId := nextEnrollmentId;
    }

    /** `can_access_course`: an administrator, or an enrollment of the pair. */
    function CanAccessCourse(user: User, courseId: nat): (r: bool)
      reads this
      ensures r <==> user.isAdmin || exists e :: e in enrollments && e.userId == user.id && e.courseId == courseId
    {
      if user.isAdmin then true else FindEnrollment(enrollments, user.id, courseId) >= 0
    }

    /** `can_access_file`: an administrator; otherwise False for an unknown
        file, else access to the file's course. */
    function CanAccessFile(user: User, fileId: nat): (r: bool)
      reads this
      ensures user.isAdmin ==> r
      ensures !user.isAdmin && (forall f :: f in files ==> f.id != fileId) ==> !r
      ensures r ==> user.isAdmin || exists f :: f in files && f.id == fileId && CanAccessCourse(user, f.courseId)
    {
      if user.isAdmin then true
      else match FindFile(files, fileId)
        case None => false
        case Some(f) => CanAccessCourse(user, f.courseId)
    }

    /** `can_access_category`: an administrator, or an enrollment in some
        course of the category. */
    function CanAccessCategory(user: User, categoryId: nat): (r: bool)
      reads this
      ensures r <==> user.isAdmin || exists e, c :: e in enrollments && c in courses && e.userId == user.id
                                                   && e.courseId == c.id && c.categoryId == categoryId
    {
      user.isAdmin || EnrolledInCategory(enrollments, courses, user.id, categoryId)
    }

    /** `get_enrolled_course_ids`: every course id for an administrator,
        else exactly the user's enrolled course ids. */
    function GetEnrolledCourseIds(user: User): (r: seq<nat>)
      reads this
      ensures user.isAdmin ==> r == CourseIds(courses)
      ensures !user.isAdmin ==> forall x :: x in r <==> Enrolled(enrollments, user.id, x)
    {
      if user.isAdmin then CourseIds(courses) else EnrolledCourseIds(enrollments, user.id)
    }

    /** `get_accessible_courses`: the visible courses ordered by name. */
    function GetAccessibleCourses(user: User, categoryId: Option<nat>, nameLe: (string, string) -> bool): (r: seq<Course>)
      reads this
      ensures multiset(r) == multiset(VisibleCourses(courses, enrollments, user, categoryId))
      ensures forall c :: c in r <==>
                c in courses && (user.isAdmin || Enrolled(enrollments, user.id, c.id))
                && (categoryId.Some? && categoryId.value != 0 ==> c.categoryId == categoryId.value)
    {
      var visible := VisibleCourses(courses, enrollments, user, categoryId);
      var r := SortBy(visible, ByCourseName(nameLe));
      assert forall c :: c in r <==> c in multiset(r);
      assert forall c :: c in visible <==> c in multiset(visible);
      r
    }

    /** `enroll_user`: ValueError for a pair already enrolled, else one new
        row. */
    method EnrollUser(userId: nat, courseId: nat, role: string) returns (r: Result<Enrollment>)
      modifies this
      ensures Enrolled(old(enrollments), userId, courseId) ==>
                r == Err(AlreadyEnrolledMessage) && enrollments == old(enrollments)
                && nextEnrollmentId == old(nextEnrollmentId)
      ensures !Enrolled(old(enrollments), userId, courseId) ==>
                r == Ok(Enrollment(old(nextEnrollmentId), userId, courseId, role))
                && enrollments == WithEnrollment(old(enrollments), old(nextEnrollmentId), userId, courseId, role)
                && nextEnrollmentId == old(nextEnrollmentId) + 1
      ensures courses == old(courses) && files == old(files)
    {
      if FindEnrollment(enrollments, userId, courseId) >= 0 {
        return Err(AlreadyEnrolledMessage);
      }
      var enrollment := Enrollment(nextEnrollmentId, userId, courseId, role);
      enrollments := enrollments + [enrollment];
      nextEnrollmentId := nextEnrollmentId + 1;
      return Ok(enrollment);
    }

    /** `unenroll_user`: True and the row goes iff it existed. */
    method UnenrollUser(userId: nat, courseId: nat) returns (removed: bool)
      modifies this
      ensures removed <==> Enrolled(old(enrollments), userId, courseId)
      ensures enrollments == WithoutEnrollment(old(enrollments), userId, courseId)
      ensures !removed ==> enrollments == old(enrollments)
      ensures courses == old(courses) && files == old(files) && nextEnrollmentId == old(nextEnrollmentId)
    {
      var i := FindEnrollment(enrollments, userId, courseId);
      if i >= 0 {
        enrollments := enrollments[..i] + enrollments[i + 1..];
        return true;
      }
      return false;
    }
  }

  /** A file's access is its course's access, for a non-administrator,
      when file ids are unique; an unknown file is never accessible. */
  lemma FileAccessFollowsCourse(s: AuthorizationService, user: User, f: FileNode)
    requires !user.isAdmin && f in s.files
    requires forall g :: g in s.files && g.id == f.id ==> g == f
    ensures s.CanAccessFile(user, f.id) == s.CanAccessCourse(user, f.courseId)
  {
    var found := FindFile(s.files, f.id);
    assert found.Some?;
  }

  /** The accessible courses come back ordered by name. */
  lemma AccessibleCoursesByName(s: AuthorizationService, user: User, categoryId: Option<nat>, nameLe: (string, string) -> bool)
    requires TotalPreorder(nameLe)
    ensures SortedBy(s.GetAccessibleCourses(user, categoryId, nameLe), ByCourseName(nameLe))
  {
    CourseOrderIsPreorder(nameLe);
    SortBySorted(VisibleCourses(s.courses, s.enrollments, user, categoryId), ByCourseName(nameLe));
  }
}
