/** The User record (models/user.js): its schema, the pre-save hook that hashes the
    password, and `comparePassword`. */
module UserModel {
  import opened Common
  import Bcrypt

  /** The cost factor passed to `bcrypt.hash` by the save hook. */
  const SaltRounds: nat := 10

  /** A stored user. `enrolledCourses` holds references to Course documents. */
  datatype User = User(
    fullname: string,
    phoneno: string,
    email: string,
    password: Bcrypt.Password,
    enrolledCourses: seq<Id>)

  /** Mongoose's `required` validator: every required string is present and non-empty. */
  predicate MeetsSchema(u: User)
  {
    u.fullname != "" && u.phoneno != "" && u.email != "" && u.password != Bcrypt.Plain("")
  }

  /** The unique index on `email`: no two stored users share an address. */
  ghost predicate EmailsUnique(users: map<Id, User>)
  {
    forall a, b :: a in users && b in users && a != b ==> users[a].email != users[b].email
  }

  /** Whether some stored user has this exact email (`User.findOne({ email })` finds one). */
  predicate EmailTaken(users: map<Id, User>, email: string)
  {
    exists u :: u in users && users[u].email == email
  }

  /** A user document in memory, with Mongoose's record of whether `password` was
      assigned since the document was created or loaded. */
  class UserDocument {
    var fullname: string
    var phoneno: string
    var email: string
    var password: Bcrypt.Password
    var enrolledCourses: seq<Id>
    var passwordModified: bool

    /** The stored form of this document. */
    function Record(): (u: User)
      reads this
      ensures u.password == password && u.enrolledCourses == enrolledCourses
    {
      User(fullname, phoneno, email, password, enrolledCourses)
    }

    /** `new User({ fullname, phoneno, email, password })`: every path of a new document
        counts as modified. */
    constructor Create(fullname: string, phoneno: string, email: string, password: string)
      ensures Record() == User(fullname, phoneno, email, Bcrypt.Plain(password), [])
      ensures passwordModified
    {
      this.fullname := fullname;
      this.phoneno := phoneno;
      this.email := email;
      this.password := Bcrypt.Plain(password);
      this.enrolledCourses := [];
      this.passwordModified := true;
    }

    /** A document returned by a query: nothing is modified yet. */
    constructor Load(u: User)
      ensures Record() == u
      ensures !passwordModified
    {
      fullname := u.fullname;
      phoneno := u.phoneno;
      email := u.email;
      password := u.password;
      enrolledCourses := u.enrolledCourses;
      passwordModified := false;
    }

    /** The `pre("save")` hook: hash the password if, and only if, it was modified; no
        other field changes. */
    method PreSave()
      modifies this`password
      ensures old(passwordModified) ==> password == Bcrypt.Hash(old(password), SaltRounds)
      ensures !old(passwordModified) ==> password == old(password)
      ensures Record() == old(Record()).(password := password)
    {
      if passwordModified {
        password := Bcrypt.Hash(password, SaltRounds);
      }
    }

    /** `comparePassword`: the answer of `bcrypt.compare` against the stored password. */
    method ComparePassword(candidate: string) returns (ok: bool)
      ensures ok <==> Bcrypt.Compare(candidate, password)
    {
      ok := Bcrypt.Compare(candidate, password);
    }
  }

  /** A freshly created document, once saved, holds a digest the submitted password
      passes, and never the clear text; a password with another bcrypt key fails. */
  lemma NewUserPasswordRoundTrip(password: string, other: string)
    ensures Bcrypt.Compare(password, Bcrypt.Hash(Bcrypt.Plain(password), SaltRounds))
    ensures Bcrypt.Hash(Bcrypt.Plain(password), SaltRounds) != Bcrypt.Plain(password)
    ensures Bcrypt.Key(other) != Bcrypt.Key(password) ==>
              !Bcrypt.Compare(other, Bcrypt.Hash(Bcrypt.Plain(password), SaltRounds))
  {
  }
}
