# E-learning app: authentication and enrollment core

A Dafny model of the logic under the routes of a small Express/Mongoose e-learning
application:

- the registration form validators (full name, email, phone number, password and its
  confirmation) and the per-field error map the `/register` route builds;
- the `/login` decision, which refuses a malformed email before any query, gives one
  identical answer for an unknown email and for a wrong password, and issues a JWT for the
  user's id only after `comparePassword` succeeds;
- `authMiddleware`, the guard in front of every protected route: no token, a token that
  verifies, a token that does not;
- the User record with its `pre("save")` hook (hash the password only when it was
  modified) and `comparePassword`, and the Course record;
- the course routes (create, update, delete) and the enrollment routes, which keep a
  course's `enrolledStudents` and each user's `enrolledCourses` in step, except when an
  unenroll names the course by a spelling of its id other than its own lower-case hex form.

The two MongoDB collections are two maps in a `Store` class (`app.dfy`). The register,
login, course and enrollment handlers are methods on it. Its invariant says five things.
Every student a course lists exists and lists the course in turn. No course lists a student
twice. Emails are unique. Every stored user meets the schema. Fresh ids come from a counter.
A stronger property, `Store.Mirrored`, adds two more: a course in a student's list lists that
student, and no student's list repeats an entry. Every route keeps it, except an unenroll
whose course id is not in its own lower-case hex form.

bcrypt and JWT are symbolic term algebras (`bcrypt.dfy`, `jwt.dfy`). What the application
relies on from them is an assumption built into those definitions, not a fact proved about
the real algorithms. A digest accepts exactly the passwords that share its bcrypt key, the
first 72 bytes of their UTF-8 encoding. A token verifies under a
key exactly when it was signed with that key. The key is the literal "mysecret", written
into both app.js and middlewares/auth.js. The proofs build on these two assumptions.

Files: `common.dfy` (ids, `Option`, route parameters), `bcrypt.dfy`, `jwt.dfy`,
`validators.dfy`, `user_model.dfy`, `course_model.dfy`, `auth_guard.dfy`, `enrollment.dfy`
(the enrollment effects and invariant on values), `registration.dfy` (register and login
decisions), `app.dfy` (the store and its route handlers).

Behaviour of the code worth knowing:

- Enrolling a student who is already listed answers 400. It is not a silent no-op.
- Deleting an unknown course id answers with the success redirect. It is not "not found".
- A course's instructor is the acting user's id. Nothing checks that such a user exists.
- A duration of zero or less is accepted.
- Deleting a course leaves its id in users' `enrolledCourses` lists. Ids are never reused,
  so the invariant tolerates this.
- Unenroll removes the student from the course's list by the stored ids, but removes the
  course from the student's list by comparing `toString()` texts with the route's text
  (app.js:419-420). A course id in upper-case hex, which `findById` still accepts, therefore
  leaves the course in the student's list. A later enroll then appends the course to that list
  a second time.
- A course whose title or description was emptied by an update, which runs no validators,
  can no longer be enrolled in or left: `course.save()` rejects it and the route answers 500.
- Two passwords that share their first 72 UTF-8 bytes both open the same account.
- A reused email is reported in the registration form's error map. If the lookup failed, the
  unique index refuses the save instead, as a generic failure.

## Model

| member | source | states |
|---|---|---|
| Validators.IsValidFullname | app.js:89-92 | accepts exactly the non-empty strings made only of ASCII letters and spaces |
| Validators.EmailCheckMatchesPattern | app.js:95-98 | the regular expression `^[^\s@]+@[^\s@]+\.[^\s@]+$` matches exactly when the string has no white space, exactly one '@' not in first place, and after it a '.' with text on both sides |
| Validators.DigitsOnly | app.js:102 | removing the non-digits leaves only digits and never lengthens the string |
| Validators.DigitsOnlyCount | app.js:102-103 | the digits-only string has one character per digit position of the input |
| Validators.IsValidPhoneNumber | app.js:101-104 | accepts exactly when ten positions of the input hold a digit, whatever else surrounds them |
| Validators.CodeUnitLength | app.js:109 | JavaScript's `length` counts one or two UTF-16 code units per character |
| Validators.Test | app.js:114-117 | a single-class `test` is true exactly when some character is in the class |
| Validators.IsValidPassword | app.js:107-119 | accepts exactly when the password has at least 8 code units and holds an upper-case letter, a lower-case letter, a digit and one of the listed special characters |
| Validators.IsValidPasswordAndConfirmation | app.js:122-124 | accepts exactly when the password meets the rule above and equals the confirmation |
| Validators.ShortAstralPasswordPasses | app.js:108-110 | the minimum is on code units, so a six-character password with two astral characters passes |
| Registration.IsEmailExists | app.js:127-135 | true only when the query succeeds and finds a user with that exact email; a failed query counts as "email free" |
| Registration.RegistrationErrors | app.js:148-175 | the route's error map is exactly one entry per failing check, with the source's messages |
| Registration.FillErrors | app.js:148-175 | filling the map check by check, with the taken-email message overwriting the format message, yields exactly that map |
| Registration.NoErrorsIffAllValid | app.js:176-178 | the error map is empty exactly when the name, email, phone and password checks pass and the email is not taken |
| Registration.TakenEmailIsReported | app.js:154-161 | a taken email always has an error entry, and it says "already exists" even when the format is also wrong |
| Registration.AcceptedFormMeetsSchema | app.js:176-185 | a form that passes every check gives a user that the schema's `required` validators accept, both before and after hashing |
| Registration.Login | app.js:198-240 | malformed email refused before any query; query failure is a generic error; unknown email and wrong password give the identical "Invalid email or password." error; otherwise a token signed for that user's id, which the guard accepts as that user |
| AuthGuard.TokenPresent | middlewares/auth.js:5-11 | `!authToken` is false: the cookie is there and is not the empty string |
| AuthGuard.Decide | middlewares/auth.js:3-24 | no cookie or an empty one means redirect to /register; a cookie that fails verification means redirect to /login; otherwise proceed with exactly the subject the token was signed for |
| AuthGuard.AuthMiddleware | middlewares/auth.js:3-24 | the decision is `Decide` of the cookie; `req.user` becomes `{ _id }` of the token only when the handler proceeds, and is untouched otherwise |
| AuthGuard.GuardAcceptsExactlySignedTokens | middlewares/auth.js:14-19 | the guard proceeds as user `u` exactly for the token signed for `u` with the key the login route uses |
| Jwt.Sign | app.js:225-226 | signing yields a signed token |
| Jwt.Verify | middlewares/auth.js:14-15 | verification yields a subject only for a token signed with that key for that subject, and fails on every other token |
| Jwt.VerifySign | middlewares/auth.js:14-18 | a token signed for `u` verifies as `u` under the same key |
| Jwt.VerifyRejectsOtherKey | middlewares/auth.js:20-23 | a token signed under another key is refused |
| Bcrypt.Hash | models/user.js:35 | hashing yields a digest with the requested cost factor |
| Bcrypt.Utf8 | models/user.js:35-42 | the encoding bcrypt hashes: one to four bytes per character |
| Bcrypt.Compare | models/user.js:41-43 | the behaviour assumed of `bcrypt.compare`: it never accepts a value that is not a digest, and it accepts a digest of the candidate itself |
| Bcrypt.Key | models/user.js:35-42 | the key bcrypt reads is at most 72 bytes long and is a prefix of the password's UTF-8 encoding; it is the whole encoding when shorter than 72 bytes |
| Bcrypt.CompareAcceptsOwnHash | models/user.js:41-43 | a password matches its own digest |
| Bcrypt.CompareAcceptsExactlySameKey | models/user.js:41-43 | a digest matches a candidate exactly when the two texts have the same bcrypt key |
| Bcrypt.ShortPasswordsCompareByEncoding | models/user.js:41-43 | for passwords of at most 72 bytes, a digest matches exactly the candidates with the same UTF-8 encoding |
| Bcrypt.TruncationIgnoresTail | models/user.js:41-43 | once a prefix fills 72 bytes, a digest of that prefix plus any tail matches that prefix plus any other tail |
| Bcrypt.LongPasswordsCollide | models/user.js:41-43 | two different 73-character passwords that agree on the first 72 characters match each other's digest |
| Bcrypt.CompareRejectsClearText | models/user.js:41-43 | a password field that still holds clear text matches nothing |
| Bcrypt.RehashBreaksCompare | models/user.js:33 | hashing a digest a second time makes the original password fail, which is why the hook checks `isModified` |
| UserModel.MeetsSchema | models/user.js:4-21 | the `required` validators: full name, phone number, email and password are all non-empty |
| UserModel.EmailsUnique | models/user.js:16 | the `unique` index on `email`: no two stored users share an address |
| UserModel.EmailTaken | app.js:129 | `User.findOne({ email })` finds a user: some stored user has exactly that address |
| UserModel.UserDocument.Record | models/user.js:4-28 | the stored record carries the document's password and course list |
| UserModel.UserDocument.Create | models/user.js:4-28 | a new document holds the submitted clear-text password and no courses, and its password counts as modified |
| UserModel.UserDocument.Load | models/user.js:4-28 | a loaded document holds the stored record with nothing modified |
| UserModel.UserDocument.PreSave | models/user.js:31-38 | the password is replaced by its bcrypt digest with 10 rounds when it was modified, and left as is otherwise; no other field changes |
| UserModel.UserDocument.ComparePassword | models/user.js:41-43 | the answer is exactly that of the bcrypt compare against the stored password |
| UserModel.NewUserPasswordRoundTrip | models/user.js:31-43 | after the first save the submitted password matches, the clear text is no longer stored, and every password with a different bcrypt key fails |
| CourseModel.ValidationErrors | models/course.js:3-27 | a course passes the `required` validators exactly when its title and description are non-empty |
| CourseModel.NewCourse | models/course.js:3-27 | a new course has the given instructor and no enrolled students |
| Enrollment.RemoveAll | app.js:419-420 | filtering removes every occurrence of the id, keeps every other id, leaves a list without the id unchanged, and keeps a list free of repeats |
| Enrollment.RemoveAllKeepsOrder | app.js:419-420 | the filtered list is a subsequence of the original that holds every other id exactly as often as before |
| Enrollment.RemoveAppended | app.js:387-388 | filtering out an id just appended to a list that lacked it gives the list back |
| Enrollment.Enrolled | app.js:387-391 | a successful enroll appends the student to the course's list and the course to the student's list; every other record and field is unchanged |
| Enrollment.Unenrolled | app.js:419-423 | a successful unenroll removes every occurrence of the pair from both lists and keeps every other entry, in order and with its multiplicity; the other fields of the two records and every other record are unchanged |
| Enrollment.UnenrolledCourseOnly | app.js:419-423 | with a non-canonical course id, unenroll removes every occurrence of the student from the course's list, keeping the rest in order, and leaves the student's record and every other record unchanged |
| Enrollment.EnrollPreservesLinked | app.js:383-391 | enrolling an unlisted, existing student keeps every listed student existing and listing the course, and no course list repeating an entry |
| Enrollment.UnenrollPreservesLinked | app.js:414-423 | unenrolling keeps that weaker invariant, whether or not the student's list is filtered |
| Enrollment.CourseOnlyUnenrollBreaksMirror | app.js:419-420 | filtering only the course's list leaves the student listing a course that no longer lists the student |
| Enrollment.EnrollPreservesConsistency | app.js:383-391 | enrolling an unlisted, existing student keeps the two lists mirroring each other, all listed students existing, and no list repeating an entry |
| Enrollment.UnenrollPreservesConsistency | app.js:414-423 | unenrolling keeps the same invariant |
| Enrollment.UnenrollUndoesEnroll | app.js:387-420 | starting from lists that do not mention each other, unenroll after enroll restores both collections exactly |
| Enrollment.EnrollThenUnenrollRestores | app.js:383-420 | under the invariant, a student absent from the course's list is enough for unenroll to undo enroll exactly |
| Enrollment.EnrollTwiceIsRefused | app.js:383-385 | after an enroll the student is listed, so a second enroll is refused, and neither list holds the pair twice |
| App.AddUserKeepsInvariant | app.js:180-186 | saving a new, schema-conformant user with a fresh id and an unused address keeps the store invariant, and the mirror when it held |
| App.AddCourseKeepsInvariant | app.js:265-273 | saving a new course with a fresh id and no students keeps the store invariant, and the mirror when it held |
| App.EnrollKeepsInvariant | app.js:383-391 | a successful enroll keeps the store invariant, and the mirror when it held |
| App.UnenrollOutcome | app.js:419-420 | after a successful unenroll the student is gone from the course's list; the course is gone from the student's list for a canonical id, and the users are untouched otherwise |
| App.UnenrollKeepsInvariant | app.js:414-423 | a successful unenroll keeps the store invariant either way; with a canonical id it also keeps the mirror, and with any other spelling it breaks it |
| App.Store.constructor | app.js:17-20 | the empty store satisfies the invariant and is mirrored |
| App.Store.Register | app.js:145-192 | a user is saved only when the error map is empty; the map is answered otherwise; an address already stored is never registered twice; the saved user holds the 10-round digest of the password and no courses |
| App.Store.Login | app.js:198-240 | under the store's invariant: malformed email refused, query failure a generic error; a token exactly when some stored user with that address has a digest the password matches, and then for that user's id; otherwise the single "Invalid email or password." error |
| App.Store.CreateCourse | app.js:258-279 | the course is stored under a fresh id with the acting user as instructor, the submitted title, description and duration, and no students, exactly when title and description are non-empty; otherwise nothing changes |
| App.Store.UpdateCourse | app.js:312-336 | a malformed id is refused before lookup; an unknown id is not found; otherwise only title, description and duration change |
| App.Store.DeleteCourse | app.js:355-368 | any well-formed id, known or not, ends in the success redirect with that course gone and users untouched; a malformed id is a server error |
| App.Store.Enroll | app.js:371-398 | refused with nothing changed for a malformed id, a missing course, a listed student, a missing student record, or a stored course that fails its `required` validators on save; otherwise exactly the two appends |
| App.Store.Unenroll | app.js:401-430 | refused with nothing changed for a malformed id, a missing course, an unlisted student or a stored course that fails its `required` validators on save; otherwise both filters for a canonical id, and the course-side filter alone for any other spelling, which breaks the mirror; the store invariant holds either way |
| App.EnrollThenUnenroll | app.js:371-430 | when an enroll succeeds, the unenroll that follows succeeds; from a mirrored store with a canonical id the store is then as before, and with any other spelling the mirror is lost |
| App.RegisterThenLogin | app.js:145-240 | when a registration saves the user, logging in with the same address and password issues a token for exactly that user |
| App.EnrollTwice | app.js:383-385 | when an enroll succeeds, repeating it is refused as already enrolled and changes nothing |
| App.UpdateThenEnroll | app.js:383-391 | an update that empties a course's title succeeds, and no enroll into that course succeeds afterwards |

## Left out

- Express wiring, view rendering, static pages, `/help`, logout and the read-only GET routes:
  they are plumbing, rendering and session I/O. Handler results are response datatypes.
- MongoDB connection, sessions and persistence: the collections are in-memory maps and each
  `save` is a map write. Query failures are modelled only where the code gives them a
  meaning of their own: the email lookup at registration and the user query at login.
  Every other route would answer 500 and change nothing.
- Asynchrony and the window between the two `save` calls of enroll and unenroll: the two
  writes are one sequential step.
- `ObjectId.isValid` and casting of route parameters: a parameter is either an id, with a flag
  saying whether its text is the id's own lower-case hex form, or malformed text. The student
  id taken from the token is always in that form, since the token was signed for a stored
  user's id.
- JavaScript's `+duration` coercion and the casting of `duration` on update (floats, NaN):
  duration is an integer.
- Form fields missing from the request body (`undefined`, which JavaScript turns into the
  text "undefined" inside `test`): every field is a string.
- bcrypt salts, one-wayness and timing, and JWT encoding, signature algorithm, the `iat`
  claim and cookie attributes: both primitives are symbolic.
- Bcrypt.Compare: does not model typing a digest's own text as a password against a doubly
  hashed field, because digests are symbolic terms, not strings.
- Bcrypt.Key: an embedded NUL character is encoded like any other; whether it ends the key
  depends on the version of the native bcrypt binding, which the repository does not pin.
- Bcrypt.Utf8: strings are sequences of Unicode scalar values, so lone UTF-16 surrogates,
  which Node.js encodes as U+FFFD, do not occur.
- Schema validation on update: `findByIdAndUpdate` runs no validators, so the model's update
  can store an empty title. The store invariant does not claim the course schema.
- utils/index.js: it duplicates the app.js validators and does not work as written.
