/** The administrator's user endpoints: creating, updating and deleting
    users, and enrolling and unenrolling them. Every endpoint runs behind
    the administrator dependency; the caller is given by id. A failed
    request commits nothing. An email of `None` and an empty email are the
    same falsy value here. */
module UsersEndpoint {
  import opened Common
  import opened AuthorizationService

  const UsernameExistsMessage: string := "Username already exists"
  const EmailExistsMessage: string := "Email already exists"
  const UserNotFoundMessage: string := "User not found"
  const CourseNotFoundMessage: string := "Course not found"
  const EnrollmentNotFoundMessage: string := "Enrollment not found"
  const OwnAdminRightsMessage: string := "Cannot remove your own admin rights"
  const OwnAccountMessage: string := "Cannot delete your own account"
  const DefaultRole: string := "student"
  /** The status and body FastAPI sends for an exception no handler catches. */
  const InternalServerError: nat := 500
  const InternalServerErrorMessage: string := "Internal Server Error"

  /** The body of a create request. */
  datatype UserCreate = UserCreate(username: string, email: string, password: string, isAdmin: Option<bool>)

  /** The body of an update request: every field optional. */
  datatype UserUpdate = UserUpdate(username: Option<string>, email: Option<string>, password: Option<string>, isAdmin: Option<bool>)

  /** Python truthiness of an optional string. */
  predicate Truthy(s: Option<string>)
  {
    s.Some? && s.value != ""
  }

  predicate UsernameTaken(users: seq<User>, username: string)
  {
    exists u :: u in users && u.username == username
  }

  predicate EmailTaken(users: seq<User>, email: string)
  {
    exists u :: u in users && u.email == email
  }

  /** Position of the user with this id, -1 when there is none. */
  function FindUser(users: seq<User>, id: nat): (r: int)
    ensures -1 <= r < |users|
    ensures r >= 0 ==> users[r].id == id && forall k :: 0 <= k < r ==> users[k].id != id
    ensures r < 0 <==> forall u :: u in users ==> u.id != id
    decreases |users|
  {
    if |users| == 0 then -1
    else if users[0].id == id then 0
    else
      var r := FindUser(users[1..], id);
      assert forall u :: u in users ==> u == users[0] || u in users[1..];
      if r < 0 then -1 else r + 1
  }

  function FindCourse(courses: seq<Course>, id: nat): (r: Option<Course>)
    ensures r.Some? ==> r.value in courses && r.value.id == id
    ensures r.None? <==> forall c :: c in courses ==> c.id != id
    decreases |courses|
  {
    if |courses| == 0 then None
    else if courses[0].id == id then Some(courses[0])
    else
      assert forall c :: c in courses ==> c == courses[0] || c in courses[1..];
      FindCourse(courses[1..], id)
  }

  /** The table's uniqueness: ids, usernames, and emails that are given. */
  predicate UniqueUsers(users: seq<User>)
  {
    forall i, j :: 0 <= i < |users| && 0 <= j < |users| && i != j ==>
      users[i].id != users[j].id && users[i].username != users[j].username
      && (users[i].email != "" ==> users[i].email != users[j].email)
  }

  /** The user with id `id` after an update that passed the guards. */
  function Updated(u: User, data: UserUpdate, newHash: string): (v: User)
    ensures v.id == u.id
    ensures v.username == u.username || Truthy(data.username)
    ensures v.email == u.email || Truthy(data.email)
    ensures v.hashedPassword != u.hashedPassword ==> Truthy(data.password)
    ensures data.isAdmin.None? ==> v.isAdmin == u.isAdmin
  {
    User(u.id,
         if Truthy(data.username) then data.username.value else u.username,
         if Truthy(data.email) then data.email.value else u.email,
         if Truthy(data.password) then newHash else u.hashedPassword,
         if data.isAdmin.Some? then data.isAdmin.value else u.isAdmin)
  }

  /** Replacing one user by a user who keeps its id and takes a username and
      email no other user has keeps the table unique. */
  lemma {:induction false} ReplaceKeepsUnique(users: seq<User>, i: nat, v: User)
    requires UniqueUsers(users) && i < |users| && v.id == users[i].id
    requires v.username == users[i].username || !UsernameTaken(users, v.username)
    requires v.email == users[i].email || !EmailTaken(users, v.email)
    ensures UniqueUsers(users[i := v])
  {
    var after := users[i := v];
    forall a, b | 0 <= a < |after| && 0 <= b < |after| && a != b
      ensures after[a].id != after[b].id && after[a].username != after[b].username
              && (after[a].email != "" ==> after[a].email != after[b].email)
    {
      if a == i {
        assert users[b] in users;
      } else if b == i {
        assert users[a] in users;
      }
    }
  }

  /** Removing the user at `i` removes exactly that id and keeps the table
      unique. */
  lemma {:induction false} RemoveKeepsUnique(users: seq<User>, i: nat)
    requires UniqueUsers(users) && i < |users|
    ensures UniqueUsers(users[..i] + users[i + 1..])
    ensures forall u :: u in users[..i] + users[i + 1..] <==> u in users && u.id != users[i].id
  {
    var after := users[..i] + users[i + 1..];
    assert forall k :: 0 <= k < |after| ==> after[k] == users[if k < i then k else k + 1];
    forall u | u in users && u.id != users[i].id
      ensures u in after
    {
      var k :| 0 <= k < |users| && users[k] == u;
      if k < i {
        assert after[k] == u;
      } else {
        assert after[k - 1] == u;
      }
    }
    forall u | u in after
      ensures u in users && u.id != users[i].id
    {
      var k :| 0 <= k < |after| && after[k] == u;
      var k' := if k < i then k else k + 1;
      assert users[k'] == u && k' != i;
    }
  }

  /** The enrollments that remain once a user's account is deleted: the rows
      of every other user, in order. */
  function WithoutUser(enrollments: seq<Enrollment>, userId: nat): (r: seq<Enrollment>)
    ensures forall e :: e in r <==> e in enrollments && e.userId != userId
    ensures |r| <= |enrollments|
    decreases |enrollments|
  {
    if |enrollments| == 0 then []
    else
      var rest := WithoutUser(enrollments[1..], userId);
      assert forall e :: e in enrollments <==> e == enrollments[0] || e in enrollments[1..];
      if enrollments[0].userId == userId then rest else [enrollments[0]] + rest
  }

  /** Dropping a user's enrollments keeps each (user, course) pair on one
      row. */
  lemma {:induction false} WithoutUserKeepsPairsUnique(enrollments: seq<Enrollment>, userId: nat)
    requires UniquePairs(enrollments)
    ensures UniquePairs(WithoutUser(enrollments, userId))
    decreases |enrollments|
  {
    if |enrollments| > 0 {
      var e := enrollments[0];
      var rest := enrollments[1..];
      assert UniquePairs(rest) by {
        forall i, j | 0 <= i < |rest| && 0 <= j < |rest|
                      && rest[i].userId == rest[j].userId && rest[i].courseId == rest[j].courseId
          ensures i == j
        {
          assert enrollments[i + 1] == rest[i] && enrollments[j + 1] == rest[j];
        }
      }
      WithoutUserKeepsPairsUnique(rest, userId);
      if e.userId != userId {
        var t := WithoutUser(rest, userId);
        assert WithoutUser(enrollments, userId) == [e] + t;
        forall x | x in t
          ensures !(x.userId == e.userId && x.courseId == e.courseId)
        {
          var k :| 0 <= k < |rest| && rest[k] == x;
          assert enrollments[k + 1] == x;
        }
        var r := [e] + t;
        assert forall k :: 0 < k < |r| ==> r[k] == t[k - 1] && r[k] in t;
        forall i, j | 0 <= i < |r| && 0 <= j < |r| && r[i].userId == r[j].userId && r[i].courseId == r[j].courseId
          ensures i == j
        {
          if i > 0 && j > 0 {
            assert r[i] == t[i - 1] && r[j] == t[j - 1];
          }
        }
      }
    }
  }

  /** `delete_user` as written: the user row is deleted through the session,
      and the `enrollments` back-reference carries no delete cascade and no
      passive deletes, so the session first sets each of the user's
      enrollments' `user_id` to NULL, which the NOT NULL column refuses at
      the commit. A user with an enrollment is never deleted.
      `referencedElsewhere` says that a row of a table this endpoint does
      not hold refers to the user: `user_progress`, `last_viewed`,
      `refresh_tokens`, `scan_history`, `announcements`,
      `user_notifications` and `search_logs` are nulled the same way, and
      `backups` and the two lock tables refuse the delete in the database;
      such a user is not deleted either. */
  function DeleteOutcomeAsWritten(users: seq<User>, enrollments: seq<Enrollment>, userId: nat, currentId: nat,
                                  referencedElsewhere: bool): (r: Response<()>)
    ensures FindUser(users, userId) < 0 ==> r == Failure(NotFound, UserNotFoundMessage)
    ensures FindUser(users, userId) >= 0 && userId == currentId ==> r == Failure(BadRequest, OwnAccountMessage)
    ensures r.Success? <==> FindUser(users, userId) >= 0 && userId != currentId
                            && (forall e :: e in enrollments ==> e.userId != userId) && !referencedElsewhere
    ensures r.Failure? && FindUser(users, userId) >= 0 && userId != currentId ==>
              r == Failure(InternalServerError, InternalServerErrorMessage)
  {
    var i := FindUser(users, userId);
    if i < 0 then Failure(NotFound, UserNotFoundMessage)
    else if users[i].id == currentId then Failure(BadRequest, OwnAccountMessage)
    else if (exists e :: e in enrollments && e.userId == userId) || referencedElsewhere then
      Failure(InternalServerError, InternalServerErrorMessage)
    else Success(())
  }

  /** A student enrolled in one course cannot be deleted by another
      administrator as written, though both guards pass. */
  lemma EnrolledStudentNotDeletedAsWritten()
    ensures var users := [User(1, "admin", "admin@example.com", "h1", true), User(2, "student", "student@example.com", "h2", false)];
      && FindUser(users, 2) >= 0
      && DeleteOutcomeAsWritten(users, [Enrollment(1, 2, 7, DefaultRole)], 2, 1, false) == Failure(InternalServerError, InternalServerErrorMessage)
  {
    var users := [User(1, "admin", "admin@example.com", "h1", true), User(2, "student", "student@example.com", "h2", false)];
    assert users[1].id == 2;
    assert Enrollment(1, 2, 7, DefaultRole) in [Enrollment(1, 2, 7, DefaultRole)];
  }

  /** `enroll_user_in_course` as written: once the guards pass, the new row
      is committed, and the response then reads `enrolled_at`, which the
      `Enrollment` table (whose time column is `created_at`) does not have.
      Every such request stores the enrollment and answers a server
      error. The result is the response and the enrollments afterwards. */
  function EnrollOutcomeAsWritten(users: seq<User>, courses: seq<Course>, enrollments: seq<Enrollment>, nextId: nat,
                                  userId: nat, courseId: nat): (r: (Response<Enrollment>, seq<Enrollment>))
    ensures r.0.Failure?
    ensures FindUser(users, userId) < 0 ==> r == (Failure(NotFound, UserNotFoundMessage), enrollments)
    ensures FindUser(users, userId) >= 0 && FindCourse(courses, courseId).None? ==>
              r == (Failure(NotFound, CourseNotFoundMessage), enrollments)
    ensures FindUser(users, userId) >= 0 && FindCourse(courses, courseId).Some? && Enrolled(enrollments, userId, courseId) ==>
              r == (Failure(BadRequest, AlreadyEnrolledMessage), enrollments)
    ensures r.1 != enrollments <==> FindUser(users, userId) >= 0 && FindCourse(courses, courseId).Some?
                                    && !Enrolled(enrollments, userId, courseId)
    ensures r.1 != enrollments ==>
              r.0 == Failure(InternalServerError, InternalServerErrorMessage)
              && r.1 == WithEnrollment(enrollments, nextId, userId, courseId, DefaultRole)
              && Enrolled(r.1, userId, courseId)
  {
    if FindUser(users, userId) < 0 then (Failure(NotFound, UserNotFoundMessage), enrollments)
    else if FindCourse(courses, courseId).None? then (Failure(NotFound, CourseNotFoundMessage), enrollments)
    else if Enrolled(enrollments, userId, courseId) then (Failure(BadRequest, AlreadyEnrolledMessage), enrollments)
    else
      var stored := WithEnrollment(enrollments, nextId, userId, courseId, DefaultRole);
      assert stored[|enrollments|] in stored;
      assert |stored| != |enrollments|;
      (Failure(InternalServerError, InternalServerErrorMessage), stored)
  }

  /** As written, enrolling a student answers a server error although the
      enrollment is stored, and the administrator's retry is refused as
      already enrolled. */
  lemma EnrollmentStoredThenRefusedAsWritten()
    ensures var users := [User(1, "admin", "admin@example.com", "h1", true), User(2, "student", "student@example.com", "h2", false)];
      var courses := [Course(7, 3, "Algebra", "/courses/math/Algebra")];
      var first := EnrollOutcomeAsWritten(users, courses, [], 1, 2, 7);
      && first == (Failure(InternalServerError, InternalServerErrorMessage), [Enrollment(1, 2, 7, DefaultRole)])
      && EnrollOutcomeAsWritten(users, courses, first.1, 2, 2, 7)
         == (Failure(BadRequest, AlreadyEnrolledMessage), [Enrollment(1, 2, 7, DefaultRole)])
  {
    var users := [User(1, "admin", "admin@example.com", "h1", true), User(2, "student", "student@example.com", "h2", false)];
    var courses := [Course(7, 3, "Algebra", "/courses/math/Algebra")];
    assert users[1].id == 2 && courses[0].id == 7;
    assert !Enrolled([], 2, 7);
    assert FindUser(users, 2) >= 0 && FindCourse(courses, 7).Some?;
    var stored := [Enrollment(1, 2, 7, DefaultRole)];
    assert stored[0] in stored && Enrolled(stored, 2, 7);
    assert WithEnrollment([], 1, 2, 7, DefaultRole) == stored;
  }

  /** `create_user` as written: once the guards pass, the row is built with
      the keyword `isAdmin`, which the `User` table (whose column is
      `is_admin`) does not have, so the constructor raises and no user is
      ever created. */
  function CreateOutcomeAsWritten(users: seq<User>, data: UserCreate): (r: Response<User>)
    ensures UsernameTaken(users, data.username) ==> r == Failure(BadRequest, UsernameExistsMessage)
    ensures !UsernameTaken(users, data.username) && data.email != "" && EmailTaken(users, data.email) ==>
              r == Failure(BadRequest, EmailExistsMessage)
    ensures !UsernameTaken(users, data.username) && !(data.email != "" && EmailTaken(users, data.email)) ==>
              r == Failure(InternalServerError, InternalServerErrorMessage)
    ensures r.Failure?
  {
    if UsernameTaken(users, data.username) then Failure(BadRequest, UsernameExistsMessage)
    else if data.email != "" && EmailTaken(users, data.email) then Failure(BadRequest, EmailExistsMessage)
    else Failure(InternalServerError, InternalServerErrorMessage)
  }

  /** The first user of an empty table passes both guards and is still not
      created as written. */
  lemma FirstUserNotCreatedAsWritten(data: UserCreate)
    ensures !UsernameTaken([], data.username) && !EmailTaken([], data.email)
    ensures CreateOutcomeAsWritten([], data) == Failure(InternalServerError, InternalServerErrorMessage)
  {
  }

  /** `update_user` as written: the new flag goes to a plain attribute
      `isAdmin` that is not a column, so the stored `is_admin` keeps its
      value while the other fields change as in `Updated`. */
  function UpdatedAsWritten(u: User, data: UserUpdate, newHash: string): (v: User)
    ensures v.isAdmin == u.isAdmin
    ensures v.id == u.id && v.username == Updated(u, data, newHash).username
            && v.email == Updated(u, data, newHash).email
            && v.hashedPassword == Updated(u, data, newHash).hashedPassword
  {
    Updated(u, data, newHash).(isAdmin := u.isAdmin)
  }

  /** Promoting a student, as written, leaves the student without
      administrator rights. */
  lemma PromotionLostAsWritten()
    ensures var u := User(2, "student", "student@example.com", "h2", false);
            var data := UserUpdate(None, None, None, Some(true));
      && Updated(u, data, "h3").isAdmin && !UpdatedAsWritten(u, data, "h3").isAdmin
  {
  }

  /** The `users` table as declared: besides unique ids and usernames, the
      `email` column is NOT NULL and unique, so every row has an email. */
  predicate DeclaredUsers(users: seq<User>)
  {
    UniqueUsers(users) && forall u :: u in users ==> u.email != ""
  }

  /** A user created without an email, which the request schema allows,
      breaks the declared table, so its commit is refused. */
  lemma EmailLessUserBreaksDeclaredTable(users: seq<User>, u: User)
    requires u.email == ""
    ensures !DeclaredUsers(users + [u])
  {
    assert u in users + [u];
  }

  class UsersEndpoint {
    var users: seq<User>
    var nextUserId: nat
    /** Courses and enrollments, shared with the authorization service. */
    const db: AuthorizationService

    ghost predicate Valid()
      reads this
    {
      UniqueUsers(users) && forall u :: u in users ==> u.id < nextUserId
    }

    constructor (users: seq<User>, nextUserId: nat, db: AuthorizationService)
      requires UniqueUsers(users) && forall u :: u in users ==> u.id < nextUserId
      ensures Valid() && this.users == users && this.nextUserId == nextUserId && this.db == db
    {
      this.users := users;
      this.nextUserId := nextUserId;
      this.db := db;
    }

    /** `create_user`: a taken username, then a given email already taken,
        are refused; otherwise the user is added, not an administrator
        unless the request says so. */
    method CreateUser(data: UserCreate, hashedPassword: string) returns (r: Response<User>)
      requires Valid()
      modifies this
      ensures Valid()
      ensures UsernameTaken(old(users), data.username) ==>
                r == Failure(BadRequest, UsernameExistsMessage) && users == old(users)
      ensures !UsernameTaken(old(users), data.username) && data.email != "" && EmailTaken(old(users), data.email) ==>
                r == Failure(BadRequest, EmailExistsMessage) && users == old(users)
      ensures r.Success? <==> !UsernameTaken(old(users), data.username) && !(data.email != "" && EmailTaken(old(users), data.email))
      ensures r.Success? ==>
                r.body == User(old(nextUserId), data.username, data.email, hashedPassword, data.isAdmin == Some(true))
                && users == old(users) + [r.body] && nextUserId == old(nextUserId) + 1
      ensures r.Failure? ==> nextUserId == old(nextUserId)
    {
      if UsernameTaken(users, data.username) {
        return Failure(BadRequest, UsernameExistsMessage);
      }
      if data.email != "" && EmailTaken(users, data.email) {
        return Failure(BadRequest, EmailExistsMessage);
      }
      var isAdmin := if data.isAdmin.Some? then data.isAdmin.value else false;
      var user := User(nextUserId, data.username, data.email, hashedPassword, isAdmin);
      ghost var before := users;
      users := users + [user];
      nextUserId := nextUserId + 1;
      forall a, b | 0 <= a < |users| && 0 <= b < |users| && a != b
        ensures users[a].id != users[b].id && users[a].username != users[b].username
                && (users[a].email != "" ==> users[a].email != users[b].email)
      {
        if a == |before| {
          assert users[b] in before;
        } else if b == |before| {
          assert users[a] in before;
        }
      }
      return Success(user);
    }

    /** `update_user`: unknown id is 404; an administrator setting their own
        flag to False is refused; a username or email that changes must not
        be taken; the password is rehashed only when one is given. */
    method UpdateUser(userId: nat, currentId: nat, data: UserUpdate, newHash: string) returns (r: Response<User>)
      requires Valid()
      modifies this
      ensures Valid() && nextUserId == old(nextUserId)
      ensures FindUser(old(users), userId) < 0 ==> r == Failure(NotFound, UserNotFoundMessage) && users == old(users)
      ensures userId == currentId && data.isAdmin == Some(false) ==> r.Failure? && users == old(users)
      ensures r.Failure? ==> users == old(users)
      ensures r.Success? ==>
                var i := FindUser(old(users), userId);
                0 <= i && r.body == Updated(old(users)[i], data, newHash) && users == old(users)[i := r.body]
                && (Truthy(data.username) && data.username.value != old(users)[i].username ==> !UsernameTaken(old(users), data.username.value))
                && (Truthy(data.email) && data.email.value != old(users)[i].email ==> !EmailTaken(old(users), data.email.value))
      ensures var i := FindUser(old(users), userId);
                i >= 0 && !(userId == currentId && data.isAdmin == Some(false))
                && !(Truthy(data.username) && data.username.value != old(users)[i].username && UsernameTaken(old(users), data.username.value))
                && !(Truthy(data.email) && data.email.value != old(users)[i].email && EmailTaken(old(users), data.email.value))
                ==> r.Success?
      /* An administrator never loses their own rights through this endpoint. */
      ensures r.Success? && userId == currentId && old(users)[FindUser(old(users), userId)].isAdmin ==> r.body.isAdmin
    {
      var i := FindUser(users, userId);
      if i < 0 {
        return Failure(NotFound, UserNotFoundMessage);
      }
      var user := users[i];
      if user.id == currentId && data.isAdmin == Some(false) {
        return Failure(BadRequest, OwnAdminRightsMessage);
      }
      if Truthy(data.username) && data.username.value != user.username {
        if UsernameTaken(users, data.username.value) {
          return Failure(BadRequest, UsernameExistsMessage);
        }
        user := user.(username := data.username.value);
      }
      if Truthy(data.email) && data.email.value != user.email {
        if EmailTaken(users, data.email.value) {
          return Failure(BadRequest, EmailExistsMessage);
        }
        user := user.(email := data.email.value);
      }
      if Truthy(data.password) {
        user := user.(hashedPassword := newHash);
      }
      if data.isAdmin.Some? {
        user := user.(isAdmin := data.isAdmin.value);
      }
      assert user == Updated(users[i], data, newHash);
      ReplaceKeepsUnique(users, i, user);
      assert users[i] in users;
      users := users[i := user];
      return Success(user);
    }

    /** `delete_user`: unknown id is 404; nobody deletes their own account.
        The user's enrollments go with the account, as the `ON DELETE
        CASCADE` of `enrollments.user_id` asks. `restricted` says that a
        row whose foreign key to the user has no delete action refers to
        the user (`user_progress`, `last_viewed`, `refresh_tokens`,
        `scan_history`, `backups`, or a lock row); the database then
        refuses the delete and nothing changes. */
    method DeleteUser(userId: nat, currentId: nat, restricted: bool) returns (r: Response<()>)
      requires Valid()
      modifies this, db
      ensures Valid() && nextUserId == old(nextUserId)
      ensures FindUser(old(users), userId) < 0 ==> r == Failure(NotFound, UserNotFoundMessage)
      ensures FindUser(old(users), userId) >= 0 && userId == currentId ==> r == Failure(BadRequest, OwnAccountMessage)
      ensures FindUser(old(users), userId) >= 0 && userId != currentId && restricted ==>
                r == Failure(InternalServerError, InternalServerErrorMessage)
      ensures r.Success? <==> FindUser(old(users), userId) >= 0 && userId != currentId && !restricted
      ensures r.Failure? ==> users == old(users) && db.enrollments == old(db.enrollments)
      ensures r.Success? ==> forall u :: u in users <==> u in old(users) && u.id != userId
      ensures r.Success? ==> db.enrollments == WithoutUser(old(db.enrollments), userId)
                             && forall e :: e in db.enrollments ==> e.userId != userId
      ensures UniquePairs(old(db.enrollments)) ==> UniquePairs(db.enrollments)
      ensures db.courses == old(db.courses) && db.files == old(db.files) && db.nextEnrollmentId == old(db.nextEnrollmentId)
    {
      var i := FindUser(users, userId);
      if i < 0 {
        return Failure(NotFound, UserNotFoundMessage);
      }
      if users[i].id == currentId {
        return Failure(BadRequest, OwnAccountMessage);
      }
      if restricted {
        return Failure(InternalServerError, InternalServerErrorMessage);
      }
      RemoveKeepsUnique(users, i);
      users := users[..i] + users[i + 1..];
      if UniquePairs(db.enrollments) {
        WithoutUserKeepsPairsUnique(db.enrollments, userId);
      }
      db.enrollments := WithoutUser(db.enrollments, userId);
      return Success(());
    }

    /** `enroll_user_in_course`: unknown user, then unknown course, is 404;
        an existing enrollment is 400; otherwise a student enrollment is
        added and returned, its time read from `created_at`, the column the
        table has. */
    method EnrollUserInCourse(userId: nat, courseId: nat) returns (r: Response<Enrollment>)
      modifies db
      ensures FindUser(users, userId) < 0 ==> r == Failure(NotFound, UserNotFoundMessage)
      ensures FindUser(users, userId) >= 0 && FindCourse(db.courses, courseId).None? ==> r == Failure(NotFound, CourseNotFoundMessage)
      ensures FindUser(users, userId) >= 0 && FindCourse(db.courses, courseId).Some? && Enrolled(old(db.enrollments), userId, courseId) ==>
                r == Failure(BadRequest, AlreadyEnrolledMessage)
      ensures r.Success? <==> FindUser(users, userId) >= 0 && FindCourse(db.courses, courseId).Some?
                              && !Enrolled(old(db.enrollments), userId, courseId)
      ensures r.Failure? ==> db.enrollments == old(db.enrollments) && db.nextEnrollmentId == old(db.nextEnrollmentId)
      ensures r.Success? ==>
                r.body == Enrollment(old(db.nextEnrollmentId), userId, courseId, DefaultRole)
                && db.enrollments == WithEnrollment(old(db.enrollments), old(db.nextEnrollmentId), userId, courseId, DefaultRole)
                && Enrolled(db.enrollments, userId, courseId)
      ensures db.courses == old(db.courses) && db.files == old(db.files)
    {
      if FindUser(users, userId) < 0 {
        return Failure(NotFound, UserNotFoundMessage);
      }
      if FindCourse(db.courses, courseId).None? {
        return Failure(NotFound, CourseNotFoundMessage);
      }
      var added := db.EnrollUser(userId, courseId, DefaultRole);
      if added.Err? {
        return Failure(BadRequest, AlreadyEnrolledMessage);
      }
      assert db.enrollments[|db.enrollments| - 1] == added.value;
      return Success(added.value);
    }

    /** `unenroll_user_from_course`: 404 when there is no such enrollment,
        otherwise it is removed. */
    method UnenrollUserFromCourse(userId: nat, courseId: nat) returns (r: Response<()>)
      modifies db
      ensures r.Success? <==> Enrolled(old(db.enrollments), userId, courseId)
      ensures r.Failure? ==> r == Failure(NotFound, EnrollmentNotFoundMessage) && db.enrollments == old(db.enrollments)
      ensures db.enrollments == WithoutEnrollment(old(db.enrollments), userId, courseId)
      ensures db.courses == old(db.courses) && db.files == old(db.files) && db.nextEnrollmentId == old(db.nextEnrollmentId)
    {
      var removed := db.UnenrollUser(userId, courseId);
      if !removed {
        return Failure(NotFound, EnrollmentNotFoundMessage);
      }
      return Success(());
    }
  }
}
