/** The login route (backend/src/routes/auth.js): validate the body, look the
    administrator up by email, compare the password, and sign a token that
    expires two days after it is issued. Password comparison (bcrypt), the
    email check (express-validator's `isEmail`) and signing (`jwt.sign`) are
    given as functions. */
module Auth {
  import opened Wrappers
  import opened Http
  import Keyed

  /** A stored administrator. */
  datatype AdminUser = AdminUser(id: nat, email: string, passwordHash: string)

  /** The JSON body of a login request. */
  datatype LoginForm = LoginForm(email: Option<string>, password: Option<string>)

  /** The claims a token is signed over: `{id, email}` plus the `iat` and `exp`
      (seconds) that `jwt.sign` adds for `expiresIn: "2d"`. */
  datatype Claims = Claims(id: nat, email: string, iat: int, exp: int)

  /** The JSON bodies of the login route. */
  datatype LoginReply =
    | ValidationErrors(errors: seq<FieldError>)
    | InvalidCredentials
    | Token(token: string, email: string)

  /** "2d" in seconds. */
  const TokenLifetime := 2 * 24 * 60 * 60
  const DevSecret := "devsecret"
  const InvalidCredentialsMessage := "Invalid credentials"

  /** `process.env.JWT_SECRET || "devsecret"`. */
  function Secret(jwtSecret: Option<string>): (s: string)
    ensures s != ""
    ensures jwtSecret.None? || jwtSecret.value == "" ==> s == DevSecret
  {
    if jwtSecret.Some? && jwtSecret.value != "" then jwtSecret.value else DevSecret
  }

  /** `body("email").isEmail()` then `body("password").notEmpty()`: one entry
      per failing field, email first. An absent email fails its check. */
  function LoginErrors(form: LoginForm, isEmail: string -> bool): (errs: seq<FieldError>)
    ensures errs == [] <==> ValidEmail(form.email, isEmail) && NotEmpty(form.password)
  {
    (if ValidEmail(form.email, isEmail) then [] else [FieldError("email")]) +
    (if NotEmpty(form.password) then [] else [FieldError("password")])
  }

  /** An administrator's `email` field, the key of the login lookup. */
  function Email(u: AdminUser): string {
    u.email
  }

  /** `AdminUser.findOne({email})`: the first stored user with that email. */
  function FindByEmail(users: seq<AdminUser>, email: string): Option<AdminUser> {
    Keyed.FindFirst(users, Email, email)
  }

  /** The claims for `user`, issued at `now` (seconds since the epoch). */
  function ClaimsFor(user: AdminUser, now: int): (c: Claims)
    ensures c.id == user.id && c.email == user.email
    ensures c.exp - c.iat == 172800 && c.iat == now
  {
    Claims(user.id, user.email, now, now + TokenLifetime)
  }

  /** `POST /login`. `matches(plain, hash)` is the password comparison,
      `sign(claims, secret)` the token signer, `jwtSecret` the configured
      secret, and `now` the issue time in seconds. */
  function Login(form: LoginForm, users: seq<AdminUser>, isEmail: string -> bool,
                 matches: (string, string) -> bool, sign: (Claims, string) -> string,
                 jwtSecret: Option<string>, now: int): (r: Response<LoginReply>)
    ensures r.status == 400 <==> LoginErrors(form, isEmail) != []
    ensures r.status == 400 ==> r.body == ValidationErrors(LoginErrors(form, isEmail))
    ensures r.status == 401 <==>
              LoginErrors(form, isEmail) == [] &&
              (FindByEmail(users, form.email.value).None? ||
               !matches(form.password.value, FindByEmail(users, form.email.value).value.passwordHash))
    ensures r.status == 401 ==> r.body == InvalidCredentials
    ensures r.status in {200, 400, 401}
    ensures r.status == 200 ==>
              var found := FindByEmail(users, form.email.value);
              found.Some? && found.value in users && found.value.email == form.email.value &&
              matches(form.password.value, found.value.passwordHash) &&
              r.body == Token(sign(ClaimsFor(found.value, now), Secret(jwtSecret)), found.value.email)
  {
    var errors := LoginErrors(form, isEmail);
    if errors != [] then Response(400, ValidationErrors(errors))
    else
      match FindByEmail(users, form.email.value)
      case None => Response(401, InvalidCredentials)
      case Some(user) =>
        if !matches(form.password.value, user.passwordHash) then Response(401, InvalidCredentials)
        else
          var token := sign(ClaimsFor(user, now), Secret(jwtSecret));
          Response(200, Token(token, user.email))
  }

  // ---------------------------------------------------------------------------
  // Properties

  /** A failed validation answers 400 before any lookup: the table, the
      comparison and the signer play no part. */
  lemma ValidationBeforeLookup(form: LoginForm, isEmail: string -> bool,
                               users1: seq<AdminUser>, matches1: (string, string) -> bool,
                               users2: seq<AdminUser>, matches2: (string, string) -> bool,
                               sign1: (Claims, string) -> string, sign2: (Claims, string) -> string,
                               jwtSecret: Option<string>, now: int)
    requires LoginErrors(form, isEmail) != []
    ensures Login(form, users1, isEmail, matches1, sign1, jwtSecret, now) ==
            Login(form, users2, isEmail, matches2, sign2, jwtSecret, now)
  {
  }

  /** An unknown email and a wrong password give the same response. */
  lemma FailuresIndistinguishable(email: string, password: string, isEmail: string -> bool,
                                  users: seq<AdminUser>, stranger: string,
                                  matches: (string, string) -> bool,
                                  sign: (Claims, string) -> string, jwtSecret: Option<string>,
                                  now: int)
    requires isEmail(email) && isEmail(stranger) && password != ""
    requires FindByEmail(users, email).Some? &&
             !matches(password, FindByEmail(users, email).value.passwordHash)
    requires forall u :: u in users ==> u.email != stranger
    ensures Login(LoginForm(Some(email), Some(password)), users, isEmail, matches, sign, jwtSecret, now) ==
            Login(LoginForm(Some(stranger), Some(password)), users, isEmail, matches, sign, jwtSecret, now) ==
            Response(401, InvalidCredentials)
  {
  }

  /** The password is compared only for a stored user: when the email is
      unknown, the comparison function makes no difference. */
  lemma CompareOnlyWhenFound(form: LoginForm, users: seq<AdminUser>, isEmail: string -> bool,
                             matches1: (string, string) -> bool, matches2: (string, string) -> bool,
                             sign: (Claims, string) -> string, jwtSecret: Option<string>, now: int)
    requires form.email.Some? && FindByEmail(users, form.email.value).None?
    ensures Login(form, users, isEmail, matches1, sign, jwtSecret, now) ==
            Login(form, users, isEmail, matches2, sign, jwtSecret, now)
  {
  }

  /** A successful login answers with the stored email and a token signed over
      that user's id and email, valid for 172800 seconds from `now`, with
      "devsecret" when no secret is configured. */
  lemma SuccessfulLogin(email: string, password: string, users: seq<AdminUser>,
                        isEmail: string -> bool, matches: (string, string) -> bool,
                        sign: (Claims, string) -> string, now: int)
    requires isEmail(email) && password != ""
    requires FindByEmail(users, email).Some?
    requires matches(password, FindByEmail(users, email).value.passwordHash)
    ensures var u := FindByEmail(users, email).value;
      Login(LoginForm(Some(email), Some(password)), users, isEmail, matches, sign, None, now) ==
        Response(200, Token(sign(Claims(u.id, u.email, now, now + 172800), "devsecret"), u.email))
  {
  }
}
