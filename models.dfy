/**
 * The user record and its save hook (models/user.go).
 * bcrypt is abstracted as a partial function from plaintext to hash.
 */
module Models {
  import opened Wrappers
  import opened Dates

  /** One row of the users table. Time stamps are whole seconds. */
  datatype User = User(
    id: nat,                  // primary key, 0 until the store assigns one
    firstName: string,
    lastName: string,
    email: string,            // unique across the table
    dob: string,              // "YYYY-MM-DD"
    age: int,                 // derived from dob on every save
    password: string,         // a hash once the record has been created
    verificationToken: string,
    verified: bool,
    tokenGeneratedAt: int
  )

  /** The errors the services and the save hook report. */
  datatype Error =
    | UserAlreadyExists       // "user already exists"
    | RecordNotFound          // the ORM's "record not found"
    | DuplicateEntry          // the store refused a second row with the same key or email
    | HashFailure             // bcrypt could not hash the password
    | InvalidToken            // "invalid token"
    | TokenExpired            // "token expired"
    | UserNotFound            // "user not found"
    | VerificationNotSaved    // "failed to update user verification status"

  /** The password hasher: None when hashing fails. */
  type HashFn = string -> Option<string>

  /** Distinct passwords never share a hash. */
  ghost predicate InjectiveHash(hash: HashFn) {
    forall p, q :: hash(p).Some? && hash(p) == hash(q) ==> p == q
  }

  /** bcrypt.CompareHashAndPassword succeeds: the candidate hashes to the stored hash. */
  predicate PasswordMatches(hash: HashFn, stored: string, candidate: string) {
    hash(candidate) == Some(stored)
  }

  /** A stored hash is matched by the password it was made from and by no other. */
  lemma OnlyOriginalPasswordMatches(hash: HashFn, password: string, candidate: string)
    requires InjectiveHash(hash) && hash(password).Some?
    ensures PasswordMatches(hash, hash(password).value, candidate) <==> candidate == password
  {
  }

  /** hashPassword: replace the password by its hash, or fail and leave the record as it was. */
  function HashPassword(u: User, hash: HashFn): (r: Result<User, Error>)
    ensures r.Failure? <==> hash(u.password).None?
    ensures r.Failure? ==> r.error == HashFailure
    ensures r.Success? ==> r.value.(password := u.password) == u
    ensures r.Success? ==> PasswordMatches(hash, r.value.password, u.password)
  {
    match hash(u.password)
    case None => Failure(HashFailure)
    case Some(h) => Success(u.(password := h))
  }

  /**
   * BeforeSave: the age is recomputed from the date of birth on every save,
   * and the password is hashed only when the save comes from a POST request
   * (`isPost`); a hashing failure aborts the save.
   */
  function BeforeSave(u: User, isPost: bool, today: CalendarDate, hash: HashFn): (r: Result<User, Error>)
    ensures r.Failure? <==> isPost && hash(u.password).None?
    ensures r.Success? ==> r.value.age == AgeOf(u.dob, today)
    ensures r.Success? && !isPost ==> r.value.password == u.password
    ensures r.Success? && isPost ==> PasswordMatches(hash, r.value.password, u.password)
    ensures r.Success? ==> r.value.(age := u.age, password := u.password) == u
  {
    var aged := u.(age := AgeOf(u.dob, today));
    if isPost then HashPassword(aged, hash) else Success(aged)
  }

  /** A save that does not hash is idempotent: saving the saved record again on the same day changes nothing. */
  lemma BeforeSaveWithoutHashIdempotent(u: User, today: CalendarDate, hash: HashFn)
    ensures BeforeSave(u, false, today, hash).Success?
    ensures BeforeSave(BeforeSave(u, false, today, hash).value, false, today, hash)
            == BeforeSave(u, false, today, hash)
  {
  }
}
