/**
 * The authentication endpoints: request validation and what `register` and
 * `login` currently answer.  Password hashing and tokens are not involved yet.
 */
module Auth {
  import opened Wrappers
  import opened Scalars
  import opened Errors
  import opened Validation

  datatype RegisterRequest = RegisterRequest(email: string, username: string, password: string)

  datatype LoginRequest = LoginRequest(email: string, password: string)

  datatype AuthResponse = AuthResponse(token: string, userId: string, username: string, level: u8)

  const USERNAME_LENGTH := Between(3, 64)
  const PASSWORD_LENGTH := AtLeast(12)

  const PLACEHOLDER_TOKEN := "placeholder_token"
  const PLACEHOLDER_USER_ID := "placeholder_id"

  /** `RegisterRequest::validate`: email syntax, username length, password length. */
  function ValidateRegister(req: RegisterRequest, isEmail: string -> bool): (errs: ValidationErrors)
    ensures FieldError(Email, EmailSyntax, req.email) in errs <==> !isEmail(req.email)
    ensures FieldError(Username, Length, req.username) in errs <==> !(3 <= |req.username| <= 64)
    ensures FieldError(Password, Length, req.password) in errs <==> |req.password| < 12
    ensures errs <= {FieldError(Email, EmailSyntax, req.email), FieldError(Username, Length, req.username), FieldError(Password, Length, req.password)}
  {
    Check(isEmail(req.email), Email, EmailSyntax, req.email)
    + Check(LengthOk(req.username, USERNAME_LENGTH), Username, Length, req.username)
    + Check(LengthOk(req.password, PASSWORD_LENGTH), Password, Length, req.password)
  }

  /** A registration passes exactly when the email is well formed, the username has 3 to 64 characters and the password at least 12. */
  lemma RegisterValidIff(req: RegisterRequest, isEmail: string -> bool)
    ensures ValidateRegister(req, isEmail) == {} <==>
      isEmail(req.email) && 3 <= |req.username| <= 64 && |req.password| >= 12
  {
    var errs := ValidateRegister(req, isEmail);
    if errs != {} {
      var e :| e in errs;
    }
  }

  /** Passwords have no upper length bound: lengthening a long-enough password never makes it fail. */
  lemma PasswordHasNoMaximum(req: RegisterRequest, isEmail: string -> bool, extra: string)
    requires FieldError(Password, Length, req.password) !in ValidateRegister(req, isEmail)
    ensures ValidateRegister(req.(password := req.password + extra), isEmail) == ValidateRegister(req, isEmail)
  {
  }

  /** `LoginRequest::validate`: only the email is checked. */
  function ValidateLogin(req: LoginRequest, isEmail: string -> bool): (errs: ValidationErrors)
    ensures errs == {} <==> isEmail(req.email)
    ensures errs <= {FieldError(Email, EmailSyntax, req.email)}
  {
    Check(isEmail(req.email), Email, EmailSyntax, req.email)
  }

  /** `register`: invalid input is rejected; a valid request gets a placeholder account echoing the username at level 0. */
  function Register(req: RegisterRequest, isEmail: string -> bool, describe: Describe): (r: Result<AuthResponse, ApiError>)
    ensures r.Err? <==> ValidateRegister(req, isEmail) != {}
    ensures r.Err? ==> r.error == InvalidInput(describe(ValidateRegister(req, isEmail)))
    ensures r.Ok? ==> r.value.username == req.username && r.value.level == 0
  {
    var errs := ValidateRegister(req, isEmail);
    if errs != {} then Err(InvalidInput(describe(errs)))
    else Ok(AuthResponse(PLACEHOLDER_TOKEN, PLACEHOLDER_USER_ID, req.username, 0))
  }

  /** Every successful registration gets the same token and user id, whoever registers. */
  lemma RegisterIssuesPlaceholderIdentity(a: RegisterRequest, b: RegisterRequest, isEmail: string -> bool, describe: Describe)
    requires Register(a, isEmail, describe).Ok? && Register(b, isEmail, describe).Ok?
    ensures Register(a, isEmail, describe).value.token == Register(b, isEmail, describe).value.token
    ensures Register(a, isEmail, describe).value.userId == Register(b, isEmail, describe).value.userId
  {
  }

  /** `login`: never succeeds; a malformed email is invalid input, anything else bad credentials. */
  function Login(req: LoginRequest, isEmail: string -> bool, describe: Describe): (r: Result<AuthResponse, ApiError>)
    ensures r.Err?
    ensures r.error.InvalidInput? <==> !isEmail(req.email)
    ensures !r.error.InvalidInput? ==> r.error == InvalidCredentials
  {
    var errs := ValidateLogin(req, isEmail);
    if errs != {} then Err(InvalidInput(describe(errs))) else Err(InvalidCredentials)
  }

  /** The password never influences the outcome of `login`. */
  lemma LoginIgnoresPassword(email: string, p: string, q: string, isEmail: string -> bool, describe: Describe)
    ensures Login(LoginRequest(email, p), isEmail, describe) == Login(LoginRequest(email, q), isEmail, describe)
  {
  }

  /** A well-formed login is answered 401 with code `INVALID_CREDENTIALS`, a malformed one 400. */
  lemma LoginStatus(req: LoginRequest, isEmail: string -> bool, describe: Describe)
    ensures IntoResponse(Login(req, isEmail, describe).error).status == if isEmail(req.email) then UNAUTHORIZED else BAD_REQUEST
    ensures isEmail(req.email) ==> IntoResponse(Login(req, isEmail, describe).error).body.code == "INVALID_CREDENTIALS"
  {
  }
}
