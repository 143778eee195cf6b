/** The decision logic of the `/register` and `/login` POST routes (app.js:126-240): the
    per-field error map a registration builds, the email lookup, and the login decision. */
module Registration {
  import opened Common
  import opened Validators
  import Bcrypt
  import Jwt
  import opened UserModel
  import AuthGuard

  /** The keys of the `errors` object the two routes render back. */
  datatype Field = FullnameField | EmailField | PhonenoField | PasswordField | Password1Field | LoginPasswordField

  const InvalidUsernameMessage := "Invalid Username"
  const InvalidEmailMessage := "Invalid email address."
  const EmailTakenMessage := "Email already exists. Please choose a different email address."
  const PhoneMessage := "Enter a 10-digit number."
  const PasswordMessage := "Password should have at least 8 characters, including one uppercase letter, one lowercase letter, one digit, and one special character."
  const Password1Message := "Passwords do not match or do not meet the criteria."
  const BadCredentialsMessage := "Invalid email or password."

  /** The key the login route signs tokens with. */
  const SigningKey: string := "mysecret"

  /** The body of a registration POST. */
  datatype RegistrationForm = RegistrationForm(
    fullname: string, phoneno: string, email: string, password: string, password1: string)

  /** The body of a login POST. */
  datatype LoginForm = LoginForm(email: string, loginpassword: string)

  // ---------------------------------------------------------------------------
  // Registration

  /** `isEmailExists`: whether `User.findOne({ email })` found a user. A query that fails is
      caught and reported as "not found". */
  function IsEmailExists(users: map<Id, User>, email: string, queryFails: bool): (found: bool)
    ensures queryFails ==> !found
    ensures !queryFails ==> (found <==> EmailTaken(users, email))
  {
    !queryFails && EmailTaken(users, email)
  }

  /** The outcome of each check a registration runs, in source order. */
  datatype Checks = Checks(
    fullnameOk: bool, emailOk: bool, emailExists: bool, phonenoOk: bool, passwordOk: bool, password1Ok: bool)

  function ChecksOf(form: RegistrationForm, emailExists: bool): Checks
  {
    Checks(IsValidFullname(form.fullname), IsValidEmail(form.email), emailExists,
           IsValidPhoneNumber(form.phoneno), IsValidPassword(form.password),
           IsValidPasswordAndConfirmation(form.password, form.password1))
  }

  /** Whether a registration field is rejected. */
  predicate FieldRejected(c: Checks, f: Field)
  {
    match f
    case FullnameField => !c.fullnameOk
    case EmailField => !c.emailOk || c.emailExists
    case PhonenoField => !c.phonenoOk
    case PasswordField => !c.passwordOk
    case Password1Field => !c.password1Ok
    case LoginPasswordField => false
  }

  /** The message shown for a rejected registration field. A taken email is reported as
      taken even when its format is also wrong. */
  function FieldMessage(f: Field, emailExists: bool): string
  {
    match f
    case FullnameField => InvalidUsernameMessage
    case EmailField => if emailExists then EmailTakenMessage else InvalidEmailMessage
    case PhonenoField => PhoneMessage
    case PasswordField => PasswordMessage
    case Password1Field => Password1Message
    case LoginPasswordField => BadCredentialsMessage
  }

  /** The error map for a given set of check outcomes: one entry per rejected field. */
  function ErrorsFor(c: Checks): map<Field, string>
  {
    map f | f in {FullnameField, EmailField, PhonenoField, PasswordField, Password1Field} && FieldRejected(c, f)
      :: FieldMessage(f, c.emailExists)
  }

  /** The error map a registration should produce. */
  function ExpectedErrors(form: RegistrationForm, emailExists: bool): map<Field, string>
  {
    ErrorsFor(ChecksOf(form, emailExists))
  }

  /** The registration route's error map: the field checks, then the errors they call for. */
  method RegistrationErrors(form: RegistrationForm, emailExists: bool) returns (errors: map<Field, string>)
    ensures errors == ExpectedErrors(form, emailExists)
  {
    var checks := ChecksOf(form, emailExists);
    errors := FillErrors(checks);
  }

  /** Fills `errors` one check after another, in source order; a taken email overwrites an
      invalid-format message. */
  method FillErrors(checks: Checks) returns (errors: map<Field, string>)
    ensures errors == ErrorsFor(checks)
  {
    errors := map[];
    if !checks.fullnameOk {
      errors := errors[FullnameField := InvalidUsernameMessage];
    }
    if !checks.emailOk {
      errors := errors[EmailField := InvalidEmailMessage];
    }
    if checks.emailExists {
      errors := errors[EmailField := EmailTakenMessage];
    }
    if !checks.phonenoOk {
      errors := errors[PhonenoField := PhoneMessage];
    }
    if !checks.passwordOk {
      errors := errors[PasswordField := PasswordMessage];
    }
    if !checks.password1Ok {
      errors := errors[Password1Field := Password1Message];
    }
    ErrorsMatch(checks, errors);
  }

  /** A map with the right entry, or none, for each field is the expected one. */
  lemma ErrorsMatch(c: Checks, errors: map<Field, string>)
    requires FullnameField in errors <==> !c.fullnameOk
    requires EmailField in errors <==> !c.emailOk || c.emailExists
    requires PhonenoField in errors <==> !c.phonenoOk
    requires PasswordField in errors <==> !c.passwordOk
    requires Password1Field in errors <==> !c.password1Ok
    requires LoginPasswordField !in errors
    requires forall f :: f in errors ==> errors[f] == FieldMessage(f, c.emailExists)
    ensures errors == ErrorsFor(c)
  {
    var expected := ErrorsFor(c);
    forall f ensures f in errors <==> f in expected {
      match f
      case FullnameField =>
      case EmailField =>
      case PhonenoField =>
      case PasswordField =>
      case Password1Field =>
      case LoginPasswordField =>
    }
    assert errors.Keys == expected.Keys;
  }

  /** The error map is empty exactly when every field passes and the email is not taken;
      only then is a user saved. */
  lemma NoErrorsIffAllValid(form: RegistrationForm, emailExists: bool)
    ensures ExpectedErrors(form, emailExists) == map[] <==>
      && IsValidFullname(form.fullname)
      && IsValidEmail(form.email)
      && !emailExists
      && IsValidPhoneNumber(form.phoneno)
      && IsValidPasswordAndConfirmation(form.password, form.password1)
  {
    var errors := ExpectedErrors(form, emailExists);
    if errors == map[] {
      assert FullnameField !in errors && EmailField !in errors && PhonenoField !in errors;
      assert Password1Field !in errors;
    }
  }

  /** A taken email is always reported, and as taken, whatever its format. */
  lemma TakenEmailIsReported(form: RegistrationForm)
    ensures EmailField in ExpectedErrors(form, true)
    ensures ExpectedErrors(form, true)[EmailField] == EmailTakenMessage
  {
  }

  /** A form that passes every check yields a user the schema's `required` validators
      accept: the regular expressions never admit an empty name, email, phone or password. */
  lemma AcceptedFormMeetsSchema(form: RegistrationForm, emailExists: bool)
    requires ExpectedErrors(form, emailExists) == map[]
    ensures MeetsSchema(User(form.fullname, form.phoneno, form.email, Bcrypt.Plain(form.password), []))
    ensures MeetsSchema(User(form.fullname, form.phoneno, form.email,
                             Bcrypt.Hash(Bcrypt.Plain(form.password), SaltRounds), []))
  {
    NoErrorsIffAllValid(form, emailExists);
    assert |DigitPositions(form.phoneno)| == 10;
    assert CodeUnitLength(form.password) >= 8;
  }

  // ---------------------------------------------------------------------------
  // Login

  /** What the login route answers: the form re-rendered with errors, the generic failure of
      a query that threw, or the `authToken` cookie for a user. */
  datatype LoginOutcome =
    | LoginRejected(errors: map<Field, string>)
    | LoginError
    | LoggedIn(user: Id, token: Jwt.Token)

  /** The login route. A malformed email is refused before any query; an unknown email and a
      wrong password give the same answer; a token for the user's id is issued only after
      `comparePassword` succeeds, and that token passes the auth guard. */
  method Login(users: map<Id, User>, form: LoginForm, queryFails: bool) returns (o: LoginOutcome)
    requires EmailsUnique(users)
    ensures !IsValidEmail(form.email) ==> o == LoginRejected(map[EmailField := InvalidEmailMessage])
    ensures IsValidEmail(form.email) && queryFails ==> o == LoginError
    ensures IsValidEmail(form.email) && !queryFails && !EmailTaken(users, form.email) ==>
              o == LoginRejected(map[LoginPasswordField := BadCredentialsMessage])
    ensures forall u :: u in users && users[u].email == form.email && IsValidEmail(form.email) && !queryFails ==>
              o == if Bcrypt.Compare(form.loginpassword, users[u].password)
                   then LoggedIn(u, Jwt.Sign(u, SigningKey))
                   else LoginRejected(map[LoginPasswordField := BadCredentialsMessage])
    ensures o.LoggedIn? ==> AuthGuard.Decide(Some(o.token)) == AuthGuard.Proceed(AuthGuard.AuthUser(o.user))
  {
    if !IsValidEmail(form.email) {
      return LoginRejected(map[EmailField := InvalidEmailMessage]);
    }
    if queryFails {
      return LoginError;
    }
    if !EmailTaken(users, form.email) {
      return LoginRejected(map[LoginPasswordField := BadCredentialsMessage]);
    }
    var u :| u in users && users[u].email == form.email;
    var user := new UserDocument.Load(users[u]);
    var isPasswordValid := user.ComparePassword(form.loginpassword);
    if !isPasswordValid {
      return LoginRejected(map[LoginPasswordField := BadCredentialsMessage]);
    }
    var token := Jwt.Sign(u, SigningKey);
    AuthGuard.GuardAcceptsExactlySignedTokens(token, u);
    o := LoggedIn(u, token);
  }
}
