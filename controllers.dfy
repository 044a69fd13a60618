/**
 * The HTTP handlers (controllers/user_controller.go) as methods over the
 * store that return the status code they write and the body they encode.
 * The decoded JSON body is a parameter (None when it does not decode), and
 * so are the Basic-Auth credentials, the clock, the new token, the email
 * syntax check and the outcome of sending the verification email.
 */
module Controllers {
  import opened Wrappers
  import opened Dates
  import opened Models
  import opened Services

  const StatusOK: int := 200
  const StatusCreated: int := 201
  const StatusBadRequest: int := 400
  const StatusUnauthorized: int := 401
  const StatusForbidden: int := 403
  const StatusNotFound: int := 404
  const StatusInternalServerError: int := 500

  /** The only user fields a response carries. */
  datatype UserResponse = UserResponse(id: nat, firstName: string, lastName: string, email: string)

  function ToResponse(u: User): UserResponse {
    UserResponse(u.id, u.firstName, u.lastName, u.email)
  }

  /** Records that differ only outside id, names and email give the same response: nothing else leaks. */
  lemma ResponseHidesSecrets(u: User, v: User)
    requires u.id == v.id && u.firstName == v.firstName && u.lastName == v.lastName && u.email == v.email
    ensures ToResponse(u) == ToResponse(v)
  {
  }

  /** The user name and password of an Authorization: Basic header. */
  datatype Credentials = Credentials(email: string, password: string)

  /** The body of a PUT /user request. */
  datatype UpdateBody = UpdateBody(email: string, firstName: string, lastName: string, dob: string)

  predicate IsVerifiedEmail(rows: seq<User>, email: string) {
    exists k :: 0 <= k < |rows| && rows[k].email == email && rows[k].verified
  }

  /** The struct tags' rules: names, email and date of birth required, and the email well formed. */
  predicate PassesValidation(u: User, isEmail: string -> bool) {
    u.firstName != "" && u.lastName != "" && u.email != "" && isEmail(u.email) && u.dob != ""
  }

  /** What CreateUser sets before persisting: a fresh token, not verified, issued now. */
  function Issue(u: User, token: string, now: int): User {
    u.(verificationToken := token, verified := false, tokenGeneratedAt := now)
  }

  /**
   * The partial patch of UpdateUser: each non-empty field of the body
   * replaces the caller's value, each empty one keeps it.
   */
  function Merge(u: User, b: UpdateBody): User {
    u.(firstName := if b.firstName != "" then b.firstName else u.firstName,
       lastName := if b.lastName != "" then b.lastName else u.lastName,
       dob := if b.dob != "" then b.dob else u.dob,
       email := if b.email != "" then b.email else u.email)
  }

  /**
   * Each non-empty body field replaces the stored value and each empty one
   * keeps it; so an empty patch changes nothing, applying a patch twice is
   * applying it once, and no field outside the four changes.
   */
  lemma MergeIsPartialPatch(u: User, b: UpdateBody)
    ensures b.firstName != "" ==> Merge(u, b).firstName == b.firstName
    ensures b.firstName == "" ==> Merge(u, b).firstName == u.firstName
    ensures b.lastName != "" ==> Merge(u, b).lastName == b.lastName
    ensures b.lastName == "" ==> Merge(u, b).lastName == u.lastName
    ensures b.dob != "" ==> Merge(u, b).dob == b.dob
    ensures b.dob == "" ==> Merge(u, b).dob == u.dob
    ensures b.email != "" ==> Merge(u, b).email == b.email
    ensures b.email == "" ==> Merge(u, b).email == u.email
    ensures b == UpdateBody("", "", "", "") ==> Merge(u, b) == u
    ensures Merge(Merge(u, b), b) == Merge(u, b)
    ensures Merge(u, b).(firstName := u.firstName, lastName := u.lastName, dob := u.dob, email := u.email) == u
  {
  }

  /** Credentials are present, a record has the email and the password matches its stored hash. */
  predicate Authenticated(rows: seq<User>, hash: HashFn, auth: Option<Credentials>) {
    && auth.Some?
    && exists k :: 0 <= k < |rows| && rows[k].email == auth.value.email
                   && PasswordMatches(hash, rows[k].password, auth.value.password)
  }

  /**
   * BasicAuth: the wrapped handler runs only when credentials are present, a
   * record has that email and the password matches its stored hash; in every
   * other case the answer is 401.
   */
  method BasicAuth(store: UserStore, auth: Option<Credentials>) returns (authorized: bool)
    requires store.Valid()
    ensures authorized <==> Authenticated(store.rows, store.hash, auth)
    ensures authorized ==> HasEmail(store.rows, auth.value.email)
  {
    if auth.None? {
      return false;
    }
    var user := store.GetUserByEmail(auth.value.email);
    if user.Failure? {
      return false;
    }
    if !PasswordMatches(store.hash, user.value.password, auth.value.password) {
      return false;
    }
    authorized := true;
    if k :| 0 <= k < |store.rows| && store.rows[k].email == auth.value.email {
      LookupFindsStoredRecord(store.State(), k);
    }
  }

  /** IsUserVerified: an error when no record has the email, otherwise the record's flag. */
  function IsUserVerified(store: UserStore, email: string): (r: Result<bool, Error>)
    reads store
    requires store.Valid()
    ensures r.Failure? <==> !HasEmail(store.rows, email)
    ensures r.Success? ==> (r.value <==> IsVerifiedEmail(store.rows, email))
  {
    match Lookup(store.rows, email)
    case Failure(e) => Failure(e)
    case Success(u) =>
      LookupReadsFlag(store.State(), email);
      Success(u.verified)
  }

  /** With unique emails, the record GetUserByEmail returns carries the one flag stored under that email. */
  lemma LookupReadsFlag(t: Table, email: string)
    requires ValidTable(t) && HasEmail(t.rows, email)
    ensures Lookup(t.rows, email).value.verified <==> IsVerifiedEmail(t.rows, email)
  {
    var k :| 0 <= k < |t.rows| && t.rows[k].email == email;
    LookupFindsStoredRecord(t, k);
  }

  /**
   * POST /users. 400 when the body does not decode or fails validation,
   * and then the store is untouched. Otherwise the record gets a fresh token,
   * verified = false and the token time now, and is created (the route only
   * admits POST, so the password is hashed); 500 when creation fails, and
   * also 500 when the email cannot be sent, though the record stays stored;
   * 201 with the created record's public fields otherwise.
   */
  method CreateUser(store: UserStore, body: Option<User>, isEmail: string -> bool, token: string, now: int,
                    today: CalendarDate, emailSent: bool)
    returns (status: int, response: Option<UserResponse>)
    requires store.Valid()
    modifies store
    ensures store.Valid()
    ensures body.None? || !PassesValidation(body.value, isEmail) ==>
      status == StatusBadRequest && response.None? && unchanged(store)
    ensures body.Some? && PassesValidation(body.value, isEmail) ==>
      var step := CreateStep(old(store.State()), Issue(body.value, token, now), true, today, store.hash);
      && store.State() == step.table
      && (status == StatusCreated <==> step.result.Success? && emailSent)
      && (status == StatusInternalServerError <==> step.result.Failure? || !emailSent)
      && (status == StatusCreated ==> response == Some(ToResponse(step.result.value)))
    ensures status != StatusCreated ==> response.None?
  {
    if body.None? {
      return StatusBadRequest, None;
    }
    var user := body.value;
    if !PassesValidation(user, isEmail) {
      return StatusBadRequest, None;
    }
    user := user.(verificationToken := token);
    user := user.(verified := false);
    user := user.(tokenGeneratedAt := now);
    assert user == Issue(body.value, token, now);
    var created := store.CreateUser(user, true, today);
    if created.Failure? {
      return StatusInternalServerError, None;
    }
    if !emailSent {
      return StatusInternalServerError, None;
    }
    status, response := StatusCreated, Some(ToResponse(created.value));
  }

  /**
   * GET /user. 400 for an undecodable body or an empty email; 403 unless a
   * verified record has the email; otherwise 200 with that record's public
   * fields. The store is only read, and the 404 branch cannot be taken.
   */
  method GetUser(store: UserStore, body: Option<string>) returns (status: int, response: Option<UserResponse>)
    requires store.Valid()
    ensures body.None? || body.value == "" ==> status == StatusBadRequest
    ensures body.Some? && body.value != "" && !IsVerifiedEmail(store.rows, body.value) ==> status == StatusForbidden
    ensures status == StatusOK <==> body.Some? && body.value != "" && IsVerifiedEmail(store.rows, body.value)
    ensures status == StatusOK ==>
      response.Some? && response.value.email == body.value
      && exists k :: 0 <= k < |store.rows| && store.rows[k].verified && response == Some(ToResponse(store.rows[k]))
    ensures status != StatusOK ==> response.None?
    ensures status != StatusNotFound
  {
    if body.None? {
      return StatusBadRequest, None;
    }
    var email := body.value;
    if email == "" {
      return StatusBadRequest, None;
    }
    var verified := IsUserVerified(store, email);
    if verified.Failure? || !verified.value {
      return StatusForbidden, None;
    }
    var user := store.GetUserByEmail(email);
    if user.Failure? {
      return StatusNotFound, None;
    }
    var k :| 0 <= k < |store.rows| && store.rows[k].email == email && store.rows[k].verified;
    LookupFindsStoredRecord(store.State(), k);
    status, response := StatusOK, Some(ToResponse(user.value));
  }

  /**
   * PUT /user, on behalf of the Basic-Auth user `authEmail`. 400 for an
   * undecodable body or an empty body email; 403 unless the caller's record
   * exists and is verified; otherwise the caller's own record (not the one the
   * body names) is patched and saved without rehashing: 500 when the new email
   * belongs to another record, 200 with the patched fields otherwise.
   */
  method UpdateUser(store: UserStore, authEmail: string, body: Option<UpdateBody>, today: CalendarDate)
    returns (status: int, response: Option<UserResponse>)
    requires store.Valid()
    modifies store
    ensures store.Valid()
    ensures body.None? || body.value.email == "" ==> status == StatusBadRequest && unchanged(store)
    ensures body.Some? && body.value.email != "" && !IsVerifiedEmail(old(store.rows), authEmail) ==>
      status == StatusForbidden && unchanged(store)
    ensures status == StatusInternalServerError <==>
      && body.Some? && body.value.email != "" && IsVerifiedEmail(old(store.rows), authEmail)
      && exists j :: 0 <= j < |old(store.rows)| && old(store.rows)[j].email == body.value.email
                     && old(store.rows)[j].email != authEmail
    ensures status == StatusInternalServerError ==> unchanged(store)
    ensures status == StatusOK <==>
      && body.Some? && body.value.email != "" && IsVerifiedEmail(old(store.rows), authEmail)
      && !exists j :: 0 <= j < |old(store.rows)| && old(store.rows)[j].email == body.value.email
                      && old(store.rows)[j].email != authEmail
    ensures status == StatusOK ==>
      && body.Some?
      && var caller := Lookup(old(store.rows), authEmail).value;
         && caller.email == authEmail
         && store.State() == UpdateStep(old(store.State()), authEmail, Merge(caller, body.value), false, today, store.hash).table
         && response == Some(ToResponse(Merge(caller, body.value)))
    ensures status in {StatusOK, StatusBadRequest, StatusForbidden, StatusInternalServerError}
    ensures status != StatusOK ==> response.None?
  {
    if body.None? {
      return StatusBadRequest, None;
    }
    var request := body.value;
    if request.email == "" {
      return StatusBadRequest, None;
    }
    var verified := IsUserVerified(store, authEmail);
    if verified.Failure? || !verified.value {
      return StatusForbidden, None;
    }
    var found := store.GetUserByEmail(authEmail);
    if found.Failure? {
      return StatusNotFound, None;
    }
    var user := found.value;
    if request.firstName != "" {
      user := user.(firstName := request.firstName);
    }
    if request.lastName != "" {
      user := user.(lastName := request.lastName);
    }
    if request.dob != "" {
      user := user.(dob := request.dob);
    }
    if request.email != "" {
      user := user.(email := request.email);
    }
    assert user == Merge(found.value, request);
    var i :| 0 <= i < |store.rows| && store.rows[i].email == authEmail;
    UpdateOverwritesFourFields(store.State(), authEmail, user, false, today, store.hash, i);
    var saved := store.UpdateUser(authEmail, user, false, today);
    if saved.Failure? {
      return StatusInternalServerError, None;
    }
    status, response := StatusOK, Some(ToResponse(user));
  }

  /**
   * DELETE /user. 400 for an undecodable body or an empty email; 403 unless a
   * verified record has the email, and then nothing is deleted; otherwise the
   * record is deleted and the answer is 200. Any authenticated user may delete
   * any verified record.
   */
  method DeleteUser(store: UserStore, body: Option<string>) returns (status: int)
    requires store.Valid()
    modifies store
    ensures store.Valid()
    ensures body.None? || body.value == "" ==> status == StatusBadRequest && unchanged(store)
    ensures body.Some? && body.value != "" && !IsVerifiedEmail(old(store.rows), body.value) ==>
      status == StatusForbidden && unchanged(store)
    ensures status == StatusOK <==> body.Some? && body.value != "" && IsVerifiedEmail(old(store.rows), body.value)
    ensures status == StatusOK ==>
      store.State() == DeleteStep(old(store.State()), body.value).table && !HasEmail(store.rows, body.value)
    ensures status in {StatusOK, StatusBadRequest, StatusForbidden}
  {
    if body.None? {
      return StatusBadRequest;
    }
    var email := body.value;
    if email == "" {
      return StatusBadRequest;
    }
    var verified := IsUserVerified(store, email);
    if verified.Failure? || !verified.value {
      return StatusForbidden;
    }
    var deleted := store.DeleteUser(email);
    if deleted.Failure? {
      return StatusInternalServerError;
    }
    status := StatusOK;
  }

  /**
   * GET /verify?token=T (a GET, so the save does not rehash). 400 for an empty
   * token; 401 when no record holds the token or it is older than 5 minutes;
   * otherwise the owner's record is marked verified and the answer is 200.
   * The "Invalid Email" 400 after a valid token cannot happen.
   */
  method VerifyEmail(store: UserStore, token: string, now: int, today: CalendarDate) returns (status: int)
    requires store.Valid()
    modifies store
    ensures store.Valid()
    ensures token == "" ==> status == StatusBadRequest && unchanged(store)
    ensures token != "" && TokenOwner(old(store.rows), token, now).Failure? ==>
      status == StatusUnauthorized && unchanged(store)
    ensures status == StatusOK <==> token != "" && TokenOwner(old(store.rows), token, now).Success?
    ensures status == StatusOK ==>
      var email := TokenOwner(old(store.rows), token, now).value;
      && store.State() == VerifyStep(old(store.State()), email, false, today, store.hash).table
      && IsVerifiedEmail(store.rows, email)
    ensures status in {StatusOK, StatusBadRequest, StatusUnauthorized}
  {
    if token == "" {
      return StatusBadRequest;
    }
    var email := store.ValidateToken(token, now);
    if email.Failure? {
      return StatusUnauthorized;
    }
    TokenOwnerOutcome(store.rows, token, now);
    var i :| 0 <= i < |store.rows| && store.rows[i].verificationToken == token && store.rows[i].email == email.value
             && now - store.rows[i].tokenGeneratedAt <= TokenLifetime;
    VerifySetsFlag(store.State(), email.value, false, today, store.hash, i);
    var verified := store.VerifyUserByEmail(email.value, false, today);
    if verified.Failure? {
      return StatusBadRequest;
    }
    status := StatusOK;
  }

  // ---------------------------------------------------------------------------
  // The routes that run a handler behind BasicAuth

  /** GET /user: 401 unless authenticated; otherwise GetUser. */
  method GetUserRoute(store: UserStore, auth: Option<Credentials>, body: Option<string>)
    returns (status: int, response: Option<UserResponse>)
    requires store.Valid()
    ensures !Authenticated(store.rows, store.hash, auth) ==> status == StatusUnauthorized
    ensures Authenticated(store.rows, store.hash, auth) && (body.None? || body.value == "") ==>
      status == StatusBadRequest
    ensures Authenticated(store.rows, store.hash, auth) && body.Some? && body.value != ""
              && !IsVerifiedEmail(store.rows, body.value) ==>
            status == StatusForbidden
    ensures status == StatusOK <==>
      && Authenticated(store.rows, store.hash, auth)
      && body.Some? && body.value != "" && IsVerifiedEmail(store.rows, body.value)
    ensures status == StatusOK ==>
      exists k :: 0 <= k < |store.rows| && store.rows[k].email == body.value && store.rows[k].verified
                  && response == Some(ToResponse(store.rows[k]))
    ensures status != StatusOK ==> response.None?
  {
    var authorized := BasicAuth(store, auth);
    if !authorized {
      return StatusUnauthorized, None;
    }
    status, response := GetUser(store, body);
  }

  /**
   * PUT /user: 401 unless authenticated, and then nothing changes; otherwise
   * UpdateUser on behalf of the authenticated email, which can change no
   * record but the caller's own.
   */
  method UpdateUserRoute(store: UserStore, auth: Option<Credentials>, body: Option<UpdateBody>, today: CalendarDate)
    returns (status: int, response: Option<UserResponse>)
    requires store.Valid()
    modifies store
    ensures store.Valid()
    ensures !old(Authenticated(store.rows, store.hash, auth)) ==>
      status == StatusUnauthorized && response.None? && unchanged(store)
    ensures old(Authenticated(store.rows, store.hash, auth)) ==>
      && (status == StatusBadRequest <==> body.None? || body.value.email == "")
      && (status == StatusForbidden <==>
            body.Some? && body.value.email != "" && !IsVerifiedEmail(old(store.rows), auth.value.email))
      && (status == StatusOK <==>
            && body.Some? && body.value.email != "" && IsVerifiedEmail(old(store.rows), auth.value.email)
            && !exists j :: 0 <= j < |old(store.rows)| && old(store.rows)[j].email == body.value.email
                            && old(store.rows)[j].email != auth.value.email)
      && (status == StatusInternalServerError <==>
            && body.Some? && body.value.email != "" && IsVerifiedEmail(old(store.rows), auth.value.email)
            && exists j :: 0 <= j < |old(store.rows)| && old(store.rows)[j].email == body.value.email
                           && old(store.rows)[j].email != auth.value.email)
    ensures status in {StatusOK, StatusBadRequest, StatusUnauthorized, StatusForbidden, StatusInternalServerError}
    ensures status != StatusOK ==> unchanged(store) && response.None?
    ensures status == StatusOK ==>
      && auth.Some? && body.Some?
      && var caller := Lookup(old(store.rows), auth.value.email).value;
         && store.State() == UpdateStep(old(store.State()), auth.value.email, Merge(caller, body.value),
                                        false, today, store.hash).table
         && response == Some(ToResponse(Merge(caller, body.value)))
    ensures status == StatusOK ==>
      && IsVerifiedEmail(old(store.rows), auth.value.email)
      && |store.rows| == |old(store.rows)|
      && forall j :: 0 <= j < |store.rows| && old(store.rows)[j].email != auth.value.email ==>
           store.rows[j] == old(store.rows)[j]
  {
    var authorized := BasicAuth(store, auth);
    if !authorized {
      return StatusUnauthorized, None;
    }
    var i :| 0 <= i < |store.rows| && store.rows[i].email == auth.value.email;
    ghost var before := store.State();
    status, response := UpdateUser(store, auth.value.email, body, today);
    if status == StatusOK {
      var caller := Lookup(before.rows, auth.value.email).value;
      UpdateOverwritesFourFields(before, auth.value.email, Merge(caller, body.value), false, today, store.hash, i);
    }
  }

  /** DELETE /user: 401 unless authenticated, and then nothing changes; otherwise DeleteUser. */
  method DeleteUserRoute(store: UserStore, auth: Option<Credentials>, body: Option<string>) returns (status: int)
    requires store.Valid()
    modifies store
    ensures store.Valid()
    ensures !old(Authenticated(store.rows, store.hash, auth)) ==> status == StatusUnauthorized && unchanged(store)
    ensures old(Authenticated(store.rows, store.hash, auth)) && (body.None? || body.value == "") ==>
      status == StatusBadRequest
    ensures old(Authenticated(store.rows, store.hash, auth)) && body.Some? && body.value != ""
              && !IsVerifiedEmail(old(store.rows), body.value) ==>
            status == StatusForbidden
    ensures status == StatusOK <==>
      && old(Authenticated(store.rows, store.hash, auth))
      && body.Some? && body.value != "" && IsVerifiedEmail(old(store.rows), body.value)
    ensures status != StatusOK ==> unchanged(store)
    ensures status == StatusOK ==>
      store.State() == DeleteStep(old(store.State()), body.value).table && !HasEmail(store.rows, body.value)
  {
    var authorized := BasicAuth(store, auth);
    if !authorized {
      return StatusUnauthorized;
    }
    status := DeleteUser(store, body);
  }
}
