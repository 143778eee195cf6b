/** The course and user routes of app.js over an in-memory stand-in for the two MongoDB
    collections. Each route handler is a method on the store; each `save`, `deleteOne` or
    `findByIdAndUpdate` is a write to one of its maps. */
module App {
  import opened Common
  import Bcrypt
  import opened UserModel
  import opened CourseModel
  import opened Enrollment
  import opened Registration
  import AuthGuard
  import Jwt
  import opened Validators

  /** What a registration POST answers: the form with its errors, the generic failure of a
      save the database refused, or the login page after the new user was saved. */
  datatype RegisterOutcome = Rejected(errors: map<Field, string>) | SaveFailed | Registered(id: Id)

  /** What the course routes answer. */
  datatype CourseResponse =
    | RedirectToCourses   // res.redirect("/courses")
    | InvalidCourseId     // 400 "Invalid course ID."
    | CourseNotFound      // 404 "Course not found."
    | AlreadyEnrolled     // 400 "Student is already enrolled in the course."
    | NotEnrolled         // 400 "Student is not enrolled in the course."
    | ServerError         // 500: a cast or validation error, or a missing student record

  /** Every identifier the store has handed out, or that a user's list refers to, is below
      `bound`: the next fresh identifier is never in use. */
  ghost predicate IdsBelow(db: Collections, bound: nat)
  {
    && (forall c :: c in db.courses ==> c < bound)
    && (forall u :: u in db.users ==> u < bound)
    && (forall u, c :: u in db.users && c in db.users[u].enrolledCourses ==> c < bound)
  }

  /** The store's invariant on the collections' contents and the id counter. It holds the
      weaker `Linked` relation only: an unenroll by a non-canonical course id (app.js:420)
      can leave a student listing a course that no longer lists the student. */
  ghost predicate Invariant(db: Collections, nextId: nat)
  {
    && Linked(db)
    && IdsBelow(db, nextId)
    && EmailsUnique(db.users)
    && (forall u :: u in db.users ==> MeetsSchema(db.users[u]))
  }

  /** Saving a new user under a fresh id, with an address no one has, no courses, and every
      required field filled, keeps the store's invariant. */
  lemma AddUserKeepsInvariant(db: Collections, nextId: nat, user: User)
    requires Invariant(db, nextId)
    requires !EmailTaken(db.users, user.email) && MeetsSchema(user) && user.enrolledCourses == []
    ensures Invariant(Collections(db.courses, db.users[nextId := user]), nextId + 1)
    ensures Consistent(db) ==> Consistent(Collections(db.courses, db.users[nextId := user]))
  {
    var db' := Collections(db.courses, db.users[nextId := user]);
    forall c, s | c in db'.courses && s in db'.courses[c].enrolledStudents ensures s in db'.users {
      assert s in db.users;
    }
    assert nextId !in db.users;
    forall a, b | a in db'.users && b in db'.users && a != b ensures db'.users[a].email != db'.users[b].email {
      if a == nextId {
        assert db.users[b].email != user.email;
      } else if b == nextId {
        assert db.users[a].email != user.email;
      }
    }
  }

  /** Saving a new course under a fresh id with no students keeps the store's invariant. */
  lemma AddCourseKeepsInvariant(db: Collections, nextId: nat, course: Course)
    requires Invariant(db, nextId)
    requires course.enrolledStudents == []
    ensures Invariant(Collections(db.courses[nextId := course], db.users), nextId + 1)
    ensures Consistent(db) ==> Consistent(Collections(db.courses[nextId := course], db.users))
  {
  }

  /** A successful enroll keeps the store's invariant. */
  lemma EnrollKeepsInvariant(db: Collections, nextId: nat, cid: Id, sid: Id)
    requires Invariant(db, nextId)
    requires cid in db.courses && sid in db.users
    requires sid !in db.courses[cid].enrolledStudents
    ensures Invariant(Enrolled(db, cid, sid), nextId)
    ensures Consistent(db) ==> Consistent(Enrolled(db, cid, sid))
  {
    EnrollPreservesLinked(db, cid, sid);
    if Consistent(db) {
      EnrollPreservesConsistency(db, cid, sid);
    }
    var db' := Enrolled(db, cid, sid);
    forall u, c | u in db'.users && c in db'.users[u].enrolledCourses ensures c < nextId {
      if u == sid && c !in db.users[u].enrolledCourses {
        assert c == cid;
      }
    }
  }

  /** What a successful unenroll leaves: both filters when the route's course id is in its
      own lower-case hex form, the course-side filter alone otherwise. */
  function UnenrollOutcome(db: Collections, cid: Id, sid: Id, canonical: bool): (db': Collections)
    requires cid in db.courses && sid in db.users
    ensures db'.courses.Keys == db.courses.Keys && db'.users.Keys == db.users.Keys
    ensures sid !in db'.courses[cid].enrolledStudents
    ensures canonical ==> cid !in db'.users[sid].enrolledCourses
    ensures !canonical ==> db'.users == db.users
  {
    if canonical then Unenrolled(db, cid, sid) else UnenrolledCourseOnly(db, cid, sid)
  }

  /** A successful unenroll keeps the store's invariant, with or without the student-side
      filter; with it the full invariant is kept too, and without it the full invariant is
      lost. */
  lemma UnenrollKeepsInvariant(db: Collections, nextId: nat, cid: Id, sid: Id, canonical: bool)
    requires Invariant(db, nextId)
    requires cid in db.courses && sid in db.courses[cid].enrolledStudents
    ensures sid in db.users
    ensures Invariant(UnenrollOutcome(db, cid, sid, canonical), nextId)
    ensures canonical && Consistent(db) ==> Consistent(UnenrollOutcome(db, cid, sid, canonical))
    ensures !canonical ==> !Consistent(UnenrollOutcome(db, cid, sid, canonical))
  {
    UnenrollPreservesLinked(db, cid, sid);
    if canonical {
      if Consistent(db) {
        UnenrollPreservesConsistency(db, cid, sid);
      }
      var db' := Unenrolled(db, cid, sid);
      forall u, c | u in db'.users && c in db'.users[u].enrolledCourses ensures c < nextId {
        assert c in db.users[u].enrolledCourses;
      }
    } else {
      CourseOnlyUnenrollBreaksMirror(db, cid, sid);
    }
  }

  class Store {
    var users: map<Id, User>
    var courses: map<Id, Course>
    /** The identifier the next new document receives. */
    var nextId: nat

    ghost function State(): Collections
      reads this
    {
      Collections(courses, users)
    }

    ghost predicate Valid()
      reads this
    {
      Invariant(State(), nextId)
    }

    /** The full two-way invariant, which every route keeps except an unenroll by a
        non-canonical course id. */
    ghost predicate Mirrored()
      reads this
    {
      Consistent(State())
    }

    constructor ()
      ensures Valid() && Mirrored()
      ensures users == map[] && courses == map[]
    {
      users := map[];
      courses := map[];
      nextId := 0;
      new;
      assert State() == Collections(map[], map[]);
    }

    /** POST /register. The email lookup runs against the stored users unless the query
        fails, in which case the address counts as free. A user is saved only when the error
        map is empty, with the password replaced by its digest; the unique index on `email`
        still refuses an address that a failed lookup let through. */
    method Register(form: RegistrationForm, queryFails: bool) returns (o: RegisterOutcome)
      requires Valid()
      modifies this
      ensures Valid()
      ensures old(Mirrored()) ==> Mirrored()
      ensures courses == old(courses)
      ensures var errors := ExpectedErrors(form, IsEmailExists(old(users), form.email, queryFails));
              && (errors != map[] <==> o.Rejected?)
              && (o.Rejected? ==> o.errors == errors)
      ensures o.SaveFailed? <==>
                ExpectedErrors(form, IsEmailExists(old(users), form.email, queryFails)) == map[]
                && EmailTaken(old(users), form.email)
      ensures EmailTaken(old(users), form.email) ==> !o.Registered?
      ensures !o.Registered? ==> users == old(users)
      ensures o.Registered? ==>
                && o.id !in old(users)
                && users == old(users)[o.id := User(form.fullname, form.phoneno, form.email,
                                                    Bcrypt.Hash(Bcrypt.Plain(form.password), SaltRounds), [])]
    {
      var emailExists := IsEmailExists(users, form.email, queryFails);
      var errors := RegistrationErrors(form, emailExists);
      if |errors| > 0 {
        return Rejected(errors);
      }
      AcceptedFormMeetsSchema(form, emailExists);
      var user := new UserDocument.Create(form.fullname, form.phoneno, form.email, form.password);
      user.PreSave();
      if EmailTaken(users, form.email) {
        // duplicate key on the unique email index: the save throws
        return SaveFailed;
      }
      var id := nextId;
      AddUserKeepsInvariant(State(), nextId, user.Record());
      users := users[id := user.Record()];
      nextId := nextId + 1;
      o := Registered(id);
    }

    /** POST /login, against the stored users: the store's invariant supplies the unique
        emails the lookup relies on. A token is issued only for the stored user with that
        address, and only when the password matches that user's digest. */
    method Login(form: LoginForm, queryFails: bool) returns (o: LoginOutcome)
      requires Valid()
      ensures !IsValidEmail(form.email) ==> o == LoginRejected(map[EmailField := InvalidEmailMessage])
      ensures IsValidEmail(form.email) && queryFails ==> o == LoginError
      ensures o.LoggedIn? <==>
                && IsValidEmail(form.email) && !queryFails
                && exists u :: u in users && users[u].email == form.email
                               && Bcrypt.Compare(form.loginpassword, users[u].password)
      ensures o.LoggedIn? ==>
                && o.user in users && users[o.user].email == form.email
                && o.token == Jwt.Sign(o.user, SigningKey)
      ensures !o.LoggedIn? && IsValidEmail(form.email) && !queryFails ==>
                o == LoginRejected(map[LoginPasswordField := BadCredentialsMessage])
    {
      o := Registration.Login(users, form, queryFails);
    }

    /** POST /courses. The acting user becomes the instructor; the course is saved only if
        the `required` validators accept it, and then under a fresh id with no students. */
    method CreateCourse(actor: AuthGuard.AuthUser, title: string, description: string, duration: int)
      returns (r: CourseResponse)
      requires Valid()
      modifies this
      ensures Valid()
      ensures old(Mirrored()) ==> Mirrored()
      ensures users == old(users)
      ensures r == RedirectToCourses <==> title != "" && description != ""
      ensures r != RedirectToCourses ==> r == ServerError && courses == old(courses)
      ensures r == RedirectToCourses ==>
                && old(nextId) !in old(courses)
                && courses == old(courses)[old(nextId) := Course(title, description, duration, actor.id, [])]
    {
      var newCourse := NewCourse(title, description, duration, actor.id);
      if ValidationErrors(newCourse) != {} {
        return ServerError;
      }
      var id := nextId;
      AddCourseKeepsInvariant(State(), nextId, newCourse);
      courses := courses[id := newCourse];
      nextId := nextId + 1;
      r := RedirectToCourses;
    }

    /** POST /courses/edit/:id. A malformed id is refused before any lookup; an unknown id is
        not found; otherwise only title, description and duration change. The update does not
        run the schema's validators. */
    method UpdateCourse(param: IdParam, title: string, description: string, duration: int)
      returns (r: CourseResponse)
      requires Valid()
      modifies this
      ensures Valid()
      ensures old(Mirrored()) ==> Mirrored()
      ensures users == old(users) && nextId == old(nextId)
      ensures param.Malformed? ==> r == InvalidCourseId
      ensures param.ObjectId? && param.id !in old(courses) ==> r == CourseNotFound
      ensures r != RedirectToCourses ==> courses == old(courses)
      ensures r == RedirectToCourses <==> param.ObjectId? && param.id in old(courses)
      ensures r == RedirectToCourses ==>
                courses == old(courses)[param.id := old(courses)[param.id].(
                             title := title, description := description, duration := duration)]
    {
      if param.Malformed? {
        return InvalidCourseId;
      }
      var id := param.id;
      if id !in courses {
        return CourseNotFound;
      }
      var course := courses[id];
      courses := courses[id := course.(title := title, description := description, duration := duration)];
      r := RedirectToCourses;
    }

    /** GET /courses/delete/:id. The result of `deleteOne` is always an object, so any
        well-formed id, known or not, ends in the redirect. Users' lists are left as they are. */
    method DeleteCourse(param: IdParam) returns (r: CourseResponse)
      requires Valid()
      modifies this
      ensures Valid()
      ensures old(Mirrored()) ==> Mirrored()
      ensures users == old(users) && nextId == old(nextId)
      ensures param.Malformed? ==> r == ServerError && courses == old(courses)
      ensures param.ObjectId? ==> r == RedirectToCourses && courses == old(courses) - {param.id}
    {
      if param.Malformed? {
        // the cast of the filter throws
        return ServerError;
      }
      courses := courses - {param.id};
      r := RedirectToCourses;
    }

    /** GET /enroll/:courseId for the acting user. Refused, with nothing changed, when the id
        is malformed, the course is missing, the student is already listed, the student's
        record is missing, or the stored course fails the schema's `required` validators when
        it is saved (an update may have emptied its title); otherwise both lists grow by one entry and nothing else changes. */
    method Enroll(actor: AuthGuard.AuthUser, param: IdParam) returns (r: CourseResponse)
      requires Valid()
      modifies this
      ensures Valid()
      ensures old(Mirrored()) ==> Mirrored()
      ensures nextId == old(nextId)
      ensures param.Malformed? ==> r == ServerError
      ensures param.ObjectId? && param.id !in old(courses) ==> r == CourseNotFound
      ensures (param.ObjectId? && param.id in old(courses)
               && actor.id in old(courses)[param.id].enrolledStudents) ==> r == AlreadyEnrolled
      ensures (param.ObjectId? && param.id in old(courses)
               && actor.id !in old(courses)[param.id].enrolledStudents && actor.id !in old(users)) ==> r == ServerError
      ensures (param.ObjectId? && param.id in old(courses)
               && actor.id !in old(courses)[param.id].enrolledStudents
               && ValidationErrors(old(courses)[param.id]) != {}) ==> r == ServerError
      ensures r == RedirectToCourses <==>
                && param.ObjectId? && param.id in old(courses)
                && actor.id !in old(courses)[param.id].enrolledStudents
                && actor.id in old(users)
                && ValidationErrors(old(courses)[param.id]) == {}
      ensures r != RedirectToCourses ==> State() == old(State())
      ensures r == RedirectToCourses ==> State() == Enrolled(old(State()), param.id, actor.id)
    {
      if param.Malformed? {
        // `Course.findById` throws a cast error
        return ServerError;
      }
      var courseId, studentId := param.id, actor.id;
      if courseId !in courses {
        return CourseNotFound;
      }
      var course := courses[courseId];
      if studentId in course.enrolledStudents {
        return AlreadyEnrolled;
      }
      if studentId !in users {
        // `student` is null: the push throws before either save
        return ServerError;
      }
      if ValidationErrors(course) != {} {
        // `course.save()` runs the schema's `required` validators and rejects the course
        return ServerError;
      }
      var student := new UserDocument.Load(users[studentId]);
      course := course.(enrolledStudents := course.enrolledStudents + [studentId]);
      student.enrolledCourses := student.enrolledCourses + [courseId];
      courses := courses[courseId := course];
      student.PreSave();
      users := users[studentId := student.Record()];
      assert State() == Enrolled(old(State()), courseId, studentId);
      EnrollKeepsInvariant(old(State()), nextId, courseId, studentId);
      r := RedirectToCourses;
    }

    /** GET /unenroll/:courseId for the acting user. Refused, with nothing changed, when the
        id is malformed, the course is missing, the student is not listed, the student's
        record is missing (which the invariant rules out for a listed student), or the stored
        course fails its `required` validators on save; otherwise
        every occurrence of the pair leaves both lists. */
    method Unenroll(actor: AuthGuard.AuthUser, param: IdParam) returns (r: CourseResponse)
      requires Valid()
      modifies this
      ensures Valid()
      ensures old(Mirrored()) && (r != RedirectToCourses || (param.ObjectId? && param.canonical)) ==> Mirrored()
      ensures r == RedirectToCourses && param.ObjectId? && !param.canonical ==> !Mirrored()
      ensures nextId == old(nextId)
      ensures param.Malformed? ==> r == ServerError
      ensures param.ObjectId? && param.id !in old(courses) ==> r == CourseNotFound
      ensures (param.ObjectId? && param.id in old(courses)
               && actor.id !in old(courses)[param.id].enrolledStudents) ==> r == NotEnrolled
      ensures (param.ObjectId? && param.id in old(courses)
               && actor.id in old(courses)[param.id].enrolledStudents
               && ValidationErrors(old(courses)[param.id]) != {}) ==> r == ServerError
      ensures r == RedirectToCourses <==>
                && param.ObjectId? && param.id in old(courses)
                && actor.id in old(courses)[param.id].enrolledStudents
                && actor.id in old(users)
                && ValidationErrors(old(courses)[param.id]) == {}
      ensures r != RedirectToCourses ==> State() == old(State())
      ensures r == RedirectToCourses ==>
                State() == UnenrollOutcome(old(State()), param.id, actor.id, param.canonical)
    {
      if param.Malformed? {
        return ServerError;
      }
      var courseId, studentId := param.id, actor.id;
      if courseId !in courses {
        return CourseNotFound;
      }
      var course := courses[courseId];
      if studentId !in course.enrolledStudents {
        return NotEnrolled;
      }
      if studentId !in users {
        return ServerError;
      }
      if ValidationErrors(course) != {} {
        return ServerError;
      }
      ghost var before := State();
      var student := new UserDocument.Load(users[studentId]);
      course := course.(enrolledStudents := RemoveAll(course.enrolledStudents, studentId));
      var studentCourses := student.enrolledCourses;
      if param.canonical {
        // the filter compares each stored id's `toString()` with the route's text, so it
        // removes the course only when that text is the id's own lower-case hex form
        studentCourses := RemoveAll(studentCourses, courseId);
      }
      student.enrolledCourses := studentCourses;
      courses := courses[courseId := course];
      student.PreSave();
      assert student.Record() == before.users[studentId].(enrolledCourses := studentCourses);
      users := users[studentId := student.Record()];
      UnenrollKeepsInvariant(before, nextId, courseId, studentId, param.canonical);
      if !param.canonical {
        assert users == before.users;
      }
      assert State() == UnenrollOutcome(before, courseId, studentId, param.canonical);
      r := RedirectToCourses;
    }
  }

  /** Enrolling and then unenrolling the same user in the same course: when the enroll goes
      through, so does the unenroll. From a mirrored store and with the course id in its own
      lower-case hex form both collections are then as they were before; with any other
      spelling the course stays in the student's list and the mirror is lost. */
  method EnrollThenUnenroll(store: Store, actor: AuthGuard.AuthUser, param: IdParam)
    returns (first: CourseResponse, second: CourseResponse)
    requires store.Valid()
    modifies store
    ensures store.Valid()
    ensures first == RedirectToCourses ==> second == RedirectToCourses && param.ObjectId?
    ensures first == RedirectToCourses && param.canonical && old(store.Mirrored()) ==>
              store.State() == old(store.State())
    ensures first == RedirectToCourses && !param.canonical ==> !store.Mirrored()
  {
    ghost var before := store.State();
    first := store.Enroll(actor, param);
    second := store.Unenroll(actor, param);
    if first == RedirectToCourses && param.canonical && Consistent(before) {
      EnrollThenUnenrollRestores(before, param.id, actor.id);
    }
  }

  /** Enrolling twice: the second request is refused and changes nothing, so no list ever
      holds the pair twice. */
  method EnrollTwice(store: Store, actor: AuthGuard.AuthUser, param: IdParam)
    returns (first: CourseResponse, second: CourseResponse)
    requires store.Valid()
    modifies store
    ensures store.Valid()
    ensures first == RedirectToCourses ==>
              param.ObjectId? && param.id in old(store.courses) && actor.id in old(store.users)
    ensures first == RedirectToCourses ==>
              second == AlreadyEnrolled && store.State() == Enrolled(old(store.State()), param.id, actor.id)
    ensures first != RedirectToCourses ==> second == first && store.State() == old(store.State())
  {
    first := store.Enroll(actor, param);
    second := store.Enroll(actor, param);
  }

  /** An update that empties a course's title goes through, since `findByIdAndUpdate` runs
      no validators; from then on every enroll into that course fails at `course.save()`. */
  method UpdateThenEnroll(store: Store, actor: AuthGuard.AuthUser, param: IdParam,
                          description: string, duration: int)
    returns (first: CourseResponse, second: CourseResponse)
    requires store.Valid()
    modifies store
    ensures store.Valid()
    ensures first == RedirectToCourses <==> param.ObjectId? && param.id in old(store.courses)
    ensures first == RedirectToCourses ==> second == ServerError || second == AlreadyEnrolled
    ensures second != RedirectToCourses
  {
    first := store.UpdateCourse(param, "", description, duration);
    second := store.Enroll(actor, param);
  }

  /** Registering and then logging in with the same address and password: when the
      registration saves the user, the login issues a token for exactly that user. */
  method RegisterThenLogin(store: Store, form: RegistrationForm)
    returns (registered: RegisterOutcome, loggedIn: LoginOutcome)
    requires store.Valid()
    modifies store
    ensures store.Valid()
    ensures registered.Registered? ==>
              loggedIn == LoggedIn(registered.id, Jwt.Sign(registered.id, SigningKey))
  {
    registered := store.Register(form, false);
    loggedIn := store.Login(LoginForm(form.email, form.password), false);
    if registered.Registered? {
      NoErrorsIffAllValid(form, IsEmailExists(old(store.users), form.email, false));
      Bcrypt.CompareAcceptsOwnHash(form.password, SaltRounds);
      assert store.users[registered.id].email == form.email;
    }
  }
}
