/** The enrollment bookkeeping behind `/enroll/:courseId` and `/unenroll/:courseId`
    (app.js:371-430), stated on the values of the two collections: what each route does to
    them, the invariant that keeps their cross-references in step, and how the two routes
    undo each other. */
module Enrollment {
  import opened Common
  import opened UserModel
  import opened CourseModel

  /** The contents of the `courses` and `users` collections. */
  datatype Collections = Collections(courses: map<Id, Course>, users: map<Id, User>)

  predicate NoDuplicates(s: seq<Id>)
  {
    forall i, j :: 0 <= i < j < |s| ==> s[i] != s[j]
  }

  /** `r` is `s` with some entries dropped and the rest kept in their order. */
  predicate Subsequence(r: seq<Id>, s: seq<Id>)
    decreases |s|
  {
    if r == [] then true
    else if s == [] then false
    else (r[0] == s[0] && Subsequence(r[1..], s[1..])) || Subsequence(r, s[1..])
  }

  /** `s.filter((y) => y.toString() !== x.toString())`: every occurrence of `x` removed,
      every other entry kept. */
  function RemoveAll(s: seq<Id>, x: Id): (r: seq<Id>)
    ensures x !in r
    ensures forall y :: y != x ==> (y in r <==> y in s)
    ensures x !in s ==> r == s
    ensures NoDuplicates(s) ==> NoDuplicates(r)
  {
    if s == [] then []
    else
      var rest := RemoveAll(s[1..], x);
      assert forall y :: y in s[1..] ==> y in s;
      if s[0] == x then rest
      else
        assert NoDuplicates(s) ==> s[0] !in s[1..];
        [s[0]] + rest
  }

  /** The filter keeps the other entries in their order, each as often as it occurs. */
  lemma {:induction false} RemoveAllKeepsOrder(s: seq<Id>, x: Id)
    ensures Subsequence(RemoveAll(s, x), s)
    ensures multiset(RemoveAll(s, x)) == multiset(s)[x := 0]
  {
    if s != [] {
      var rest := RemoveAll(s[1..], x);
      RemoveAllKeepsOrder(s[1..], x);
      assert s == [s[0]] + s[1..];
      assert multiset(s) == multiset{s[0]} + multiset(s[1..]);
      if s[0] != x {
        assert ([s[0]] + rest)[1..] == rest;
      }
    }
  }

  /** Removing an element that was just appended to a list that lacked it gives the list back. */
  lemma {:induction false} RemoveAppended(s: seq<Id>, x: Id)
    requires x !in s
    ensures RemoveAll(s + [x], x) == s
  {
    if s == [] {
      assert [x][1..] == [];
    } else {
      assert (s + [x])[1..] == s[1..] + [x];
      RemoveAppended(s[1..], x);
    }
  }

  /** What the routes keep whatever the spelling of the route's course id: every student a
      course lists exists and lists the course in turn, and no course lists a student twice. */
  ghost predicate Linked(db: Collections)
  {
    && (forall c, s :: c in db.courses && s in db.courses[c].enrolledStudents ==>
          s in db.users && c in db.users[s].enrolledCourses)
    && (forall c :: c in db.courses ==> NoDuplicates(db.courses[c].enrolledStudents))
  }

  /** The full relationship invariant: on top of `Linked`, a course in a student's list lists
      that student, and no student's list repeats an entry. A user's list may keep the id of
      a course that was deleted. */
  ghost predicate Consistent(db: Collections)
  {
    && Linked(db)
    && (forall c, s :: c in db.courses && s in db.users && c in db.users[s].enrolledCourses ==>
          s in db.courses[c].enrolledStudents)
    && (forall s :: s in db.users ==> NoDuplicates(db.users[s].enrolledCourses))
  }

  /** Both pushes of a successful enroll: the student onto the course's list and the course
      onto the student's list. Every other record, and every other field, stays as it was. */
  function Enrolled(db: Collections, cid: Id, sid: Id): (db': Collections)
    requires cid in db.courses && sid in db.users
    ensures db'.courses.Keys == db.courses.Keys && db'.users.Keys == db.users.Keys
    ensures db'.courses[cid] == db.courses[cid].(enrolledStudents := db.courses[cid].enrolledStudents + [sid])
    ensures db'.users[sid] == db.users[sid].(enrolledCourses := db.users[sid].enrolledCourses + [cid])
    ensures forall c :: c in db.courses && c != cid ==> db'.courses[c] == db.courses[c]
    ensures forall s :: s in db.users && s != sid ==> db'.users[s] == db.users[s]
  {
    var course := db.courses[cid];
    var student := db.users[sid];
    Collections(
      db.courses[cid := course.(enrolledStudents := course.enrolledStudents + [sid])],
      db.users[sid := student.(enrolledCourses := student.enrolledCourses + [cid])])
  }

  /** Both filters of a successful unenroll: each list loses every occurrence of the other
      side's id and keeps the rest in order. Every other record, and every other field, stays
      as it was. */
  function Unenrolled(db: Collections, cid: Id, sid: Id): (db': Collections)
    requires cid in db.courses && sid in db.users
    ensures db'.courses.Keys == db.courses.Keys && db'.users.Keys == db.users.Keys
    ensures sid !in db'.courses[cid].enrolledStudents && cid !in db'.users[sid].enrolledCourses
    ensures forall s :: s != sid ==> (s in db'.courses[cid].enrolledStudents <==> s in db.courses[cid].enrolledStudents)
    ensures forall c :: c != cid ==> (c in db'.users[sid].enrolledCourses <==> c in db.users[sid].enrolledCourses)
    ensures Subsequence(db'.courses[cid].enrolledStudents, db.courses[cid].enrolledStudents)
    ensures Subsequence(db'.users[sid].enrolledCourses, db.users[sid].enrolledCourses)
    ensures multiset(db'.courses[cid].enrolledStudents) == multiset(db.courses[cid].enrolledStudents)[sid := 0]
    ensures multiset(db'.users[sid].enrolledCourses) == multiset(db.users[sid].enrolledCourses)[cid := 0]
    ensures db'.courses[cid].(enrolledStudents := db.courses[cid].enrolledStudents) == db.courses[cid]
    ensures db'.users[sid].(enrolledCourses := db.users[sid].enrolledCourses) == db.users[sid]
    ensures forall c :: c in db.courses && c != cid ==> db'.courses[c] == db.courses[c]
    ensures forall s :: s in db.users && s != sid ==> db'.users[s] == db.users[s]
  {
    var course := db.courses[cid];
    var student := db.users[sid];
    RemoveAllKeepsOrder(course.enrolledStudents, sid);
    RemoveAllKeepsOrder(student.enrolledCourses, cid);
    Collections(
      db.courses[cid := course.(enrolledStudents := RemoveAll(course.enrolledStudents, sid))],
      db.users[sid := student.(enrolledCourses := RemoveAll(student.enrolledCourses, cid))])
  }

  /** The course-side filter alone: what unenroll does when the route's text is not the
      course id's own lower-case hex form, so that the student-side comparison of
      `toString()` texts removes nothing. The student's record is left as it was. */
  function UnenrolledCourseOnly(db: Collections, cid: Id, sid: Id): (db': Collections)
    requires cid in db.courses
    ensures db'.courses.Keys == db.courses.Keys && db'.users == db.users
    ensures sid !in db'.courses[cid].enrolledStudents
    ensures forall s :: s != sid ==> (s in db'.courses[cid].enrolledStudents <==> s in db.courses[cid].enrolledStudents)
    ensures Subsequence(db'.courses[cid].enrolledStudents, db.courses[cid].enrolledStudents)
    ensures multiset(db'.courses[cid].enrolledStudents) == multiset(db.courses[cid].enrolledStudents)[sid := 0]
    ensures db'.courses[cid].(enrolledStudents := db.courses[cid].enrolledStudents) == db.courses[cid]
    ensures forall c :: c in db.courses && c != cid ==> db'.courses[c] == db.courses[c]
  {
    var course := db.courses[cid];
    RemoveAllKeepsOrder(course.enrolledStudents, sid);
    Collections(db.courses[cid := course.(enrolledStudents := RemoveAll(course.enrolledStudents, sid))], db.users)
  }

  /** Enrolling an existing student who is not yet in the course keeps the weaker invariant. */
  lemma EnrollPreservesLinked(db: Collections, cid: Id, sid: Id)
    requires Linked(db)
    requires cid in db.courses && sid in db.users
    requires sid !in db.courses[cid].enrolledStudents
    ensures Linked(Enrolled(db, cid, sid))
  {
  }

  /** Unenrolling keeps the weaker invariant, whether or not the student side is filtered. */
  lemma UnenrollPreservesLinked(db: Collections, cid: Id, sid: Id)
    requires Linked(db)
    requires cid in db.courses && sid in db.users
    ensures Linked(Unenrolled(db, cid, sid))
    ensures Linked(UnenrolledCourseOnly(db, cid, sid))
  {
  }

  /** Enrolling an existing student who is not yet in the course keeps the invariant. */
  lemma EnrollPreservesConsistency(db: Collections, cid: Id, sid: Id)
    requires Consistent(db)
    requires cid in db.courses && sid in db.users
    requires sid !in db.courses[cid].enrolledStudents
    ensures Consistent(Enrolled(db, cid, sid))
  {
  }

  /** Unenrolling with both filters keeps the invariant. */
  lemma UnenrollPreservesConsistency(db: Collections, cid: Id, sid: Id)
    requires Consistent(db)
    requires cid in db.courses && sid in db.users
    ensures Consistent(Unenrolled(db, cid, sid))
  {
  }

  /** Filtering only the course side of a listed pair leaves the student listing a course that
      no longer lists the student, so the full invariant is lost. */
  lemma CourseOnlyUnenrollBreaksMirror(db: Collections, cid: Id, sid: Id)
    requires Linked(db)
    requires cid in db.courses && sid in db.courses[cid].enrolledStudents
    ensures !Consistent(UnenrolledCourseOnly(db, cid, sid))
  {
    var db' := UnenrolledCourseOnly(db, cid, sid);
    assert sid in db'.users && cid in db'.users[sid].enrolledCourses;
    assert sid !in db'.courses[cid].enrolledStudents;
  }

  /** Enroll then unenroll, from a state where neither list mentions the other, restores both
      collections exactly. */
  lemma UnenrollUndoesEnroll(db: Collections, cid: Id, sid: Id)
    requires cid in db.courses && sid in db.users
    requires sid !in db.courses[cid].enrolledStudents
    requires cid !in db.users[sid].enrolledCourses
    ensures Unenrolled(Enrolled(db, cid, sid), cid, sid) == db
  {
    RemoveAppended(db.courses[cid].enrolledStudents, sid);
    RemoveAppended(db.users[sid].enrolledCourses, cid);
    var db' := Unenrolled(Enrolled(db, cid, sid), cid, sid);
    assert db'.courses == db.courses;
    assert db'.users == db.users;
  }

  /** Under the invariant the course's list alone decides: a student missing from it is also
      missing the course, so enroll followed by unenroll always restores the collections. */
  lemma EnrollThenUnenrollRestores(db: Collections, cid: Id, sid: Id)
    requires Consistent(db)
    requires cid in db.courses && sid in db.users
    requires sid !in db.courses[cid].enrolledStudents
    ensures Unenrolled(Enrolled(db, cid, sid), cid, sid) == db
  {
    UnenrollUndoesEnroll(db, cid, sid);
  }

  /** After an enroll the student is in the course's list, so a second enroll of the same pair
      is refused and no entry is ever doubled. */
  lemma EnrollTwiceIsRefused(db: Collections, cid: Id, sid: Id)
    requires Consistent(db)
    requires cid in db.courses && sid in db.users
    requires sid !in db.courses[cid].enrolledStudents
    ensures sid in Enrolled(db, cid, sid).courses[cid].enrolledStudents
    ensures NoDuplicates(Enrolled(db, cid, sid).courses[cid].enrolledStudents)
    ensures NoDuplicates(Enrolled(db, cid, sid).users[sid].enrolledCourses)
  {
  }
}
