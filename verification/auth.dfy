/** Local sign-in (routers/auth.py): the `authenticate_user` decision ladder
    and the `require_login` guard. The user table is a sequence searched in
    order, and bcrypt's `checkpw` is a parameter that may raise. */
module Auth {
  import opened Optional

  /** The columns of a user row the ladder reads. */
  datatype User = User(email: string, username: Option<string>, passwordHash: Option<string>, isActive: bool)

  /** The failure codes `authenticate_user` returns. */
  datatype Reason = NotFound | InvalidPassword | Inactive

  /** `bcrypt.checkpw(password, hash)`: `Some(b)` when it returns `b`, `None`
      when it raises (as it does for a hash that is not a bcrypt hash). */
  type Checkpw = (string, string) -> Option<bool>

  /** The `(user, reason)` pair `authenticate_user` returns. */
  datatype Outcome = Outcome(user: Option<User>, reason: Option<Reason>)

  /** The exception `checkpw` raised, passed on to the caller. */
  datatype BcryptError = BcryptError

  /** The `WHERE` clause: by username when `byUsername`, else by email. A
      missing username (SQL `NULL`) equals nothing. */
  predicate MatchesIdentifier(u: User, identifier: string, byUsername: bool) {
    if byUsername then u.username == Some(identifier) else u.email == identifier
  }

  /** Row `i` is the first row that matches. */
  predicate IsFirstMatch(users: seq<User>, identifier: string, byUsername: bool, i: nat) {
    && i < |users| && MatchesIdentifier(users[i], identifier, byUsername)
    && forall m :: 0 <= m < i ==> !MatchesIdentifier(users[m], identifier, byUsername)
  }

  /** The index of the first matching row at or after `from`. */
  function FindUser(users: seq<User>, identifier: string, byUsername: bool, from: nat): (r: Option<nat>)
    requires from <= |users|
    ensures r.Some? ==> from <= r.value < |users| && MatchesIdentifier(users[r.value], identifier, byUsername)
    ensures r.Some? ==> forall m :: from <= m < r.value ==> !MatchesIdentifier(users[m], identifier, byUsername)
    ensures r.None? ==> forall m :: from <= m < |users| ==> !MatchesIdentifier(users[m], identifier, byUsername)
    decreases |users| - from
  {
    if from == |users| then None
    else if MatchesIdentifier(users[from], identifier, byUsername) then Some(from)
    else FindUser(users, identifier, byUsername, from + 1)
  }

  /** `result.first()` over the selected rows: the first row that matches. */
  function Lookup(users: seq<User>, identifier: string, byUsername: bool): (r: Option<User>)
    ensures r.None? <==> forall i :: 0 <= i < |users| ==> !MatchesIdentifier(users[i], identifier, byUsername)
    ensures r.Some? ==> exists i: nat :: IsFirstMatch(users, identifier, byUsername, i) && users[i] == r.value
  {
    match FindUser(users, identifier, byUsername, 0)
    case None => None
    case Some(i) => Some(users[i])
  }

  /** `authenticate_user` as written: a missing hash is checked as `""`. */
  function AuthenticateUser(users: seq<User>, identifier: string, password: string, byUsername: bool,
                            checkpw: Checkpw): (r: Result<Outcome, BcryptError>)
    ensures var found := Lookup(users, identifier, byUsername);
      && (r == Success(Outcome(None, Some(NotFound))) <==> found.None?)
      && (r.Failure? <==> found.Some? && checkpw(password, OrEmpty(found.value.passwordHash)).None?)
      && (r == Success(Outcome(None, Some(InvalidPassword))) <==>
            found.Some? && checkpw(password, OrEmpty(found.value.passwordHash)) == Some(false))
      && (r == Success(Outcome(None, Some(Inactive))) <==>
            found.Some? && checkpw(password, OrEmpty(found.value.passwordHash)) == Some(true) && !found.value.isActive)
      && (r.Success? && r.value.user.Some? <==>
            found.Some? && checkpw(password, OrEmpty(found.value.passwordHash)) == Some(true) && found.value.isActive)
    ensures r.Success? ==> (r.value.user.None? <==> r.value.reason.Some?)
    ensures r.Success? && r.value.user.Some? ==> Some(r.value.user.value) == Lookup(users, identifier, byUsername)
  {
    match Lookup(users, identifier, byUsername)
    case None => Success(Outcome(None, Some(NotFound)))
    case Some(user) =>
      match checkpw(password, OrEmpty(user.passwordHash))
      case None => Failure(BcryptError)
      case Some(ok) =>
        if !ok then Success(Outcome(None, Some(InvalidPassword)))
        else if !user.isActive then Success(Outcome(None, Some(Inactive)))
        else Success(Outcome(Some(user), None))
  }

  /** The password is judged before the active flag: an inactive account
      with a wrong password is reported as a wrong password. */
  lemma PasswordBeforeActive(users: seq<User>, identifier: string, password: string, byUsername: bool,
                             checkpw: Checkpw)
    requires Lookup(users, identifier, byUsername).Some?
    requires !Lookup(users, identifier, byUsername).value.isActive
    requires checkpw(password, OrEmpty(Lookup(users, identifier, byUsername).value.passwordHash)) == Some(false)
    ensures AuthenticateUser(users, identifier, password, byUsername, checkpw) == Success(Outcome(None, Some(InvalidPassword)))
  {
  }

  /** A user without a password hash is checked against the empty hash, which
      `checkpw` refuses by raising: the call raises instead of answering
      "invalid_password". */
  lemma MissingHashRaises(users: seq<User>, identifier: string, password: string, byUsername: bool,
                          checkpw: Checkpw)
    requires Lookup(users, identifier, byUsername).Some?
    requires Lookup(users, identifier, byUsername).value.passwordHash.None?
    requires checkpw(password, "").None?
    ensures AuthenticateUser(users, identifier, password, byUsername, checkpw).Failure?
  {
  }

  /** `authenticate_user` with a missing hash answered as a wrong password
      without calling `checkpw`; with a hash it is the ladder as written. */
  function AuthenticateUserChecked(users: seq<User>, identifier: string, password: string, byUsername: bool,
                                   checkpw: Checkpw): (r: Result<Outcome, BcryptError>)
    ensures var found := Lookup(users, identifier, byUsername);
      && (found.Some? && found.value.passwordHash.None? ==> r == Success(Outcome(None, Some(InvalidPassword))))
      && (found.None? || found.value.passwordHash.Some? ==>
            r == AuthenticateUser(users, identifier, password, byUsername, checkpw))
    ensures r.Success? ==> (r.value.user.None? <==> r.value.reason.Some?)
    ensures r.Success? && r.value.user.Some? ==> r.value.user.value.passwordHash.Some?
  {
    match Lookup(users, identifier, byUsername)
    case Some(user) =>
      if user.passwordHash.None? then Success(Outcome(None, Some(InvalidPassword)))
      else AuthenticateUser(users, identifier, password, byUsername, checkpw)
    case None => AuthenticateUser(users, identifier, password, byUsername, checkpw)
  }

  // ---------------------------------------------------------------------------
  // require_login
  // ---------------------------------------------------------------------------

  /** A value stored in the session, with Python's truthiness. */
  datatype Value = NoneValue | Bool(b: bool) | Int(n: int) | Str(s: string) | Dict(fields: map<string, string>)

  predicate ValueTruthy(v: Value) {
    match v
    case NoneValue => false
    case Bool(b) => b
    case Int(n) => n != 0
    case Str(s) => s != ""
    case Dict(fields) => fields != map[]
  }

  /** A request: its session, or `None` when it has no `session` attribute. */
  datatype Request = Request(session: Option<map<string, Value>>)

  /** The exception FastAPI turns into a response. */
  datatype HttpError = HttpError(status: nat, headers: map<string, string>)

  const SessionUserKey: string := "user"
  const LoginRedirect: HttpError := HttpError(307, map["Location" := "/login"])

  /** `request.session.get("user")` guarded by `hasattr(request, "session")`. */
  function SessionUser(req: Request): Value {
    match req.session
    case None => NoneValue
    case Some(s) => if SessionUserKey in s then s[SessionUserKey] else NoneValue
  }

  /** `require_login(request)`: the session user when it is truthy, otherwise
      a temporary redirect to the login page. */
  function RequireLogin(req: Request): (r: Result<Value, HttpError>)
    ensures r.Success? <==> req.session.Some? && SessionUserKey in req.session.value
                            && ValueTruthy(req.session.value[SessionUserKey])
    ensures r.Success? ==> r.value == req.session.value[SessionUserKey]
    ensures r.Failure? ==> r.error.status == 307 && r.error.headers == map["Location" := "/login"]
  {
    var user := SessionUser(req);
    if !ValueTruthy(user) then Failure(LoginRedirect) else Success(user)
  }

  /** Requests without a session, without a user entry or with an empty user
      are all redirected alike. */
  lemma NoSessionRedirects(fields: map<string, Value>)
    ensures RequireLogin(Request(None)) == Failure(LoginRedirect)
    ensures SessionUserKey !in fields ==> RequireLogin(Request(Some(fields))) == Failure(LoginRedirect)
    ensures RequireLogin(Request(Some(fields[SessionUserKey := Dict(map[])]))) == Failure(LoginRedirect)
  {
  }
}
