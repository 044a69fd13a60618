/**
 * The persistence services (services/user_services.go) over an in-memory
 * model of the users table.
 *
 * The table is the sequence of its rows in ascending primary-key order, so
 * that the ORM's `Where(...).First(...)` is the first matching row, and a
 * counter for the next auto-increment id. The pure functions below say what
 * each service does to a table value; the class UserStore at the end holds
 * the table and performs the same steps in place.
 */
module Services {
  import opened Wrappers
  import opened Dates
  import opened Models

  // ---------------------------------------------------------------------------
  // The table

  datatype Table = Table(rows: seq<User>, nextId: nat)

  /** The where-clauses the services query by. */
  datatype Where = EmailIs(email: string) | TokenIs(token: string)

  predicate Matches(u: User, w: Where) {
    match w
    case EmailIs(e) => u.email == e
    case TokenIs(t) => u.verificationToken == t
  }

  ghost predicate IdsAscending(rows: seq<User>) {
    forall i, j :: 0 <= i < j < |rows| ==> rows[i].id < rows[j].id
  }

  /** The unique index on email (models/user.go:16). */
  ghost predicate UniqueEmails(rows: seq<User>) {
    forall i, j :: 0 <= i < j < |rows| ==> rows[i].email != rows[j].email
  }

  /** Ids are positive, ascending and below the auto-increment counter; emails are unique. */
  ghost predicate ValidTable(t: Table) {
    && 1 <= t.nextId
    && IdsAscending(t.rows)
    && UniqueEmails(t.rows)
    && (forall i :: 0 <= i < |t.rows| ==> 0 < t.rows[i].id < t.nextId)
  }

  predicate HasEmail(rows: seq<User>, email: string) {
    exists j :: 0 <= j < |rows| && rows[j].email == email
  }

  /** `Where(w).First(&u)`: the index of the first (lowest-id) matching row. */
  function First(rows: seq<User>, w: Where): (r: Option<nat>)
    ensures r.None? <==> forall j :: 0 <= j < |rows| ==> !Matches(rows[j], w)
    ensures r.Some? ==> r.value < |rows| && Matches(rows[r.value], w)
    ensures r.Some? ==> forall j :: 0 <= j < r.value ==> !Matches(rows[j], w)
  {
    if rows == [] then None
    else if Matches(rows[0], w) then Some(0)
    else match First(rows[1..], w)
      case None => None
      case Some(k) => Some(k + 1)
  }

  /** With unique emails, the row First finds by email is the only row with that email. */
  lemma FirstByEmailIsUnique(rows: seq<User>, email: string, k: nat)
    requires UniqueEmails(rows) && k < |rows| && rows[k].email == email
    ensures First(rows, EmailIs(email)) == Some(k)
  {
  }

  /** `Where(w).Delete(...)`: every matching row goes, the others stay in order. */
  function DeleteWhere(rows: seq<User>, w: Where): (r: seq<User>)
    ensures forall v :: v in r <==> v in rows && !Matches(v, w)
    ensures |r| <= |rows|
  {
    if rows == [] then []
    else
      var rest := DeleteWhere(rows[1..], w);
      assert forall v :: v in rows <==> v == rows[0] || v in rows[1..];
      if Matches(rows[0], w) then rest else [rows[0]] + rest
  }

  /** Deleting rows keeps the ids ascending. */
  lemma {:induction false} DeleteWhereKeepsIdsAscending(rows: seq<User>, w: Where)
    requires IdsAscending(rows)
    ensures IdsAscending(DeleteWhere(rows, w))
  {
    if rows != [] {
      DeleteWhereKeepsIdsAscending(rows[1..], w);
      var rest := DeleteWhere(rows[1..], w);
      if !Matches(rows[0], w) {
        forall k | 0 <= k < |rest| ensures rows[0].id < rest[k].id {
          assert rest[k] in rows[1..];
        }
      }
    }
  }

  /** Deleting rows keeps the emails unique. */
  lemma {:induction false} DeleteWhereKeepsEmailsUnique(rows: seq<User>, w: Where)
    requires UniqueEmails(rows)
    ensures UniqueEmails(DeleteWhere(rows, w))
  {
    if rows != [] {
      DeleteWhereKeepsEmailsUnique(rows[1..], w);
      var rest := DeleteWhere(rows[1..], w);
      if !Matches(rows[0], w) {
        forall k | 0 <= k < |rest| ensures rows[0].email != rest[k].email {
          assert rest[k] in rows[1..];
        }
      }
    }
  }

  /** An insert: the new row goes before the first row with a larger id. */
  function InsertById(rows: seq<User>, u: User): (r: seq<User>)
    ensures forall v :: v in r <==> v in rows || v == u
    ensures |r| == |rows| + 1
  {
    if rows == [] || u.id < rows[0].id then [u] + rows
    else
      var rest := InsertById(rows[1..], u);
      assert forall v :: v in rows <==> v == rows[0] || v in rows[1..];
      [rows[0]] + rest
  }

  /** Inserting a row whose id is not yet taken keeps the ids ascending. */
  lemma {:induction false} InsertByIdKeepsIdsAscending(rows: seq<User>, u: User)
    requires IdsAscending(rows) && forall j :: 0 <= j < |rows| ==> rows[j].id != u.id
    ensures IdsAscending(InsertById(rows, u))
  {
    if rows != [] && u.id >= rows[0].id {
      InsertByIdKeepsIdsAscending(rows[1..], u);
      var rest := InsertById(rows[1..], u);
      forall k | 0 <= k < |rest| ensures rows[0].id < rest[k].id {
        assert rest[k] == u || rest[k] in rows[1..];
      }
    }
  }

  /** Inserting a row whose email is not yet taken keeps the emails unique. */
  lemma {:induction false} InsertByIdKeepsEmailsUnique(rows: seq<User>, u: User)
    requires UniqueEmails(rows) && !HasEmail(rows, u.email)
    ensures UniqueEmails(InsertById(rows, u))
  {
    if rows != [] && u.id >= rows[0].id {
      InsertByIdKeepsEmailsUnique(rows[1..], u);
      var rest := InsertById(rows[1..], u);
      forall k | 0 <= k < |rest| ensures rows[0].email != rest[k].email {
        assert rest[k] == u || rest[k] in rows[1..];
      }
    } else {
      var r := InsertById(rows, u);
      forall i, j | 0 <= i < j < |r| ensures r[i].email != r[j].email {
        assert r[j] == rows[j - 1];
        if i > 0 { assert r[i] == rows[i - 1]; }
      }
    }
  }

  // ---------------------------------------------------------------------------
  // What each operation does to a table

  /** The table after an operation, and what the operation returned. */
  datatype Step<T> = Step(table: Table, result: Result<T, Error>)

  /** A token is accepted until more than 5 minutes (in seconds) have passed since it was issued. */
  const TokenLifetime: int := 5 * 60

  /**
   * The ORM's Create: run the save hook, take the next auto-increment id
   * unless the record carries one, and refuse a key or an email already in
   * the table.
   */
  function InsertStep(t: Table, u: User, isPost: bool, today: CalendarDate, hash: HashFn): Step<User>
  {
    match BeforeSave(u, isPost, today, hash)
    case Failure(e) => Step(t, Failure(e))
    case Success(saved) =>
      var row := if saved.id == 0 then saved.(id := t.nextId) else saved;
      if exists j :: 0 <= j < |t.rows| && (t.rows[j].id == row.id || t.rows[j].email == row.email) then
        Step(t, Failure(DuplicateEntry))
      else
        Step(Table(InsertById(t.rows, row), if row.id >= t.nextId then row.id + 1 else t.nextId), Success(row))
  }

  /**
   * The ORM's Save of the record loaded from row `i`: run the save hook and
   * overwrite that row, unless another row already holds the new email.
   */
  function SaveStep(t: Table, i: nat, u: User, isPost: bool, today: CalendarDate, hash: HashFn): Step<User>
    requires i < |t.rows| && u.id == t.rows[i].id
  {
    match BeforeSave(u, isPost, today, hash)
    case Failure(e) => Step(t, Failure(e))
    case Success(saved) =>
      if exists j :: 0 <= j < |t.rows| && j != i && t.rows[j].email == saved.email then
        Step(t, Failure(DuplicateEntry))
      else
        Step(t.(rows := t.rows[i := saved]), Success(saved))
  }

  /** CreateUser: refuse an email already present, otherwise insert. */
  function CreateStep(t: Table, u: User, isPost: bool, today: CalendarDate, hash: HashFn): Step<User>
  {
    if First(t.rows, EmailIs(u.email)).Some? then Step(t, Failure(UserAlreadyExists))
    else InsertStep(t, u, isPost, today, hash)
  }

  /** GetUserByEmail. */
  function Lookup(rows: seq<User>, email: string): (r: Result<User, Error>)
    ensures r.Success? <==> HasEmail(rows, email)
    ensures r.Success? ==> r.value in rows && r.value.email == email
    ensures r.Failure? ==> r.error == RecordNotFound
  {
    match First(rows, EmailIs(email))
    case None => Failure(RecordNotFound)
    case Some(i) => Success(rows[i])
  }

  /** The four fields UpdateUser copies from the patch onto the stored record. */
  function Overwrite(stored: User, patch: User): User {
    stored.(firstName := patch.firstName, lastName := patch.lastName, dob := patch.dob, email := patch.email)
  }

  /** UpdateUser: load by email, overwrite four fields, save. */
  function UpdateStep(t: Table, email: string, patch: User, isPost: bool, today: CalendarDate, hash: HashFn): Step<()>
  {
    match First(t.rows, EmailIs(email))
    case None => Step(t, Failure(RecordNotFound))
    case Some(i) =>
      var s := SaveStep(t, i, Overwrite(t.rows[i], patch), isPost, today, hash);
      Step(s.table, if s.result.Success? then Success(()) else Failure(s.result.error))
  }

  /** DeleteUser: remove the rows with that email; no error even when none matched. */
  function DeleteStep(t: Table, email: string): Step<()> {
    Step(t.(rows := DeleteWhere(t.rows, EmailIs(email))), Success(()))
  }

  /** ValidateToken: the email of the first row holding the token, if the token is not older than 5 minutes. */
  function TokenOwner(rows: seq<User>, token: string, now: int): Result<string, Error> {
    match First(rows, TokenIs(token))
    case None => Failure(InvalidToken)
    case Some(i) =>
      if now - rows[i].tokenGeneratedAt > TokenLifetime then Failure(TokenExpired)
      else Success(rows[i].email)
  }

  /** VerifyUserByEmail: load by email, set the flag, save. */
  function VerifyStep(t: Table, email: string, isPost: bool, today: CalendarDate, hash: HashFn): Step<()> {
    match First(t.rows, EmailIs(email))
    case None => Step(t, Failure(UserNotFound))
    case Some(i) =>
      var s := SaveStep(t, i, t.rows[i].(verified := true), isPost, today, hash);
      if s.result.Failure? then Step(t, Failure(VerificationNotSaved)) else Step(s.table, Success(()))
  }

  // ---------------------------------------------------------------------------
  // Properties of the operations

  /** The store's own insert and save keep the table valid. */
  lemma InsertStepKeepsValid(t: Table, u: User, isPost: bool, today: CalendarDate, hash: HashFn)
    requires ValidTable(t)
    ensures ValidTable(InsertStep(t, u, isPost, today, hash).table)
  {
    var b := BeforeSave(u, isPost, today, hash);
    if b.Success? {
      var row := if b.value.id == 0 then b.value.(id := t.nextId) else b.value;
      if !exists j :: 0 <= j < |t.rows| && (t.rows[j].id == row.id || t.rows[j].email == row.email) {
        InsertByIdKeepsIdsAscending(t.rows, row);
        InsertByIdKeepsEmailsUnique(t.rows, row);
        var rows' := InsertById(t.rows, row);
        assert forall k :: 0 <= k < |rows'| ==> rows'[k] == row || rows'[k] in t.rows;
      }
    }
  }

  lemma SaveStepKeepsValid(t: Table, i: nat, u: User, isPost: bool, today: CalendarDate, hash: HashFn)
    requires ValidTable(t) && i < |t.rows| && u.id == t.rows[i].id
    ensures ValidTable(SaveStep(t, i, u, isPost, today, hash).table)
  {
  }

  /** CreateUser refuses an email that is already stored, and then changes nothing. */
  lemma CreateRejectsExistingEmail(t: Table, u: User, isPost: bool, today: CalendarDate, hash: HashFn)
    requires HasEmail(t.rows, u.email)
    ensures CreateStep(t, u, isPost, today, hash) == Step(t, Failure(UserAlreadyExists))
  {
  }

  /**
   * CreateUser succeeds exactly when the email is new, the save hook does not
   * fail and any id the record carries is free. It always leaves a valid
   * table, and on failure nothing changes.
   */
  lemma {:induction false} CreateAddsOneRecord(t: Table, u: User, isPost: bool, today: CalendarDate, hash: HashFn)
    requires ValidTable(t)
    ensures var s := CreateStep(t, u, isPost, today, hash);
      && ValidTable(s.table)
      && (s.result.Success? <==>
            && !HasEmail(t.rows, u.email)
            && !(isPost && hash(u.password).None?)
            && (u.id == 0 || forall j :: 0 <= j < |t.rows| ==> t.rows[j].id != u.id))
      && (s.result.Failure? ==> s.table == t)
  {
    var s := CreateStep(t, u, isPost, today, hash);
    if !HasEmail(t.rows, u.email) {
      InsertStepKeepsValid(t, u, isPost, today, hash);
    }
  }

  /**
   * A successful CreateUser adds exactly one row: the input record with its
   * id, age and password filled in. Every old row stays, and that new row is
   * what GetUserByEmail returns afterwards.
   */
  lemma {:induction false} CreatedRecordIsStored(t: Table, u: User, isPost: bool, today: CalendarDate, hash: HashFn)
    requires ValidTable(t) && CreateStep(t, u, isPost, today, hash).result.Success?
    ensures var s := CreateStep(t, u, isPost, today, hash);
      var c := s.result.value;
      && c.(id := u.id, age := u.age, password := u.password) == u
      && c.age == AgeOf(u.dob, today)
      && (isPost ==> PasswordMatches(hash, c.password, u.password))
      && (!isPost ==> c.password == u.password)
      && c.id > 0 && (u.id != 0 ==> c.id == u.id)
      && c !in t.rows
      && |s.table.rows| == |t.rows| + 1
      && (forall v :: v in s.table.rows <==> v in t.rows || v == c)
      && Lookup(s.table.rows, u.email) == Success(c)
  {
    var s := CreateStep(t, u, isPost, today, hash);
    var c := s.result.value;
    InsertStepKeepsValid(t, u, isPost, today, hash);
    assert c in s.table.rows;
    var k :| 0 <= k < |s.table.rows| && s.table.rows[k] == c;
    FirstByEmailIsUnique(s.table.rows, u.email, k);
  }

  /** After a successful create, creating again with the same email fails and changes nothing. */
  lemma CreateTwiceFails(t: Table, u: User, v: User, isPost: bool, today: CalendarDate, hash: HashFn)
    requires ValidTable(t) && CreateStep(t, u, isPost, today, hash).result.Success? && v.email == u.email
    ensures var once := CreateStep(t, u, isPost, today, hash).table;
      CreateStep(once, v, isPost, today, hash) == Step(once, Failure(UserAlreadyExists))
  {
    CreatedRecordIsStored(t, u, isPost, today, hash);
    var once := CreateStep(t, u, isPost, today, hash).table;
    CreateRejectsExistingEmail(once, v, isPost, today, hash);
  }

  /** GetUserByEmail returns the very record stored under an email. */
  lemma LookupFindsStoredRecord(t: Table, k: nat)
    requires ValidTable(t) && k < |t.rows|
    ensures Lookup(t.rows, t.rows[k].email) == Success(t.rows[k])
  {
    FirstByEmailIsUnique(t.rows, t.rows[k].email, k);
  }

  /**
   * UpdateUser on the stored record at index i: it succeeds unless the save
   * hook fails or another record already has the new email. On success it
   * overwrites first name, last name, date of birth and email, recomputes the
   * age, and keeps the id, the token, its time, the verified flag and (when
   * not hashing) the password; every other record is unchanged.
   */
  lemma {:induction false} UpdateOverwritesFourFields(t: Table, email: string, patch: User, isPost: bool,
                                                      today: CalendarDate, hash: HashFn, i: nat)
    requires ValidTable(t) && i < |t.rows| && t.rows[i].email == email
    ensures var s := UpdateStep(t, email, patch, isPost, today, hash);
      && ValidTable(s.table)
      && s.table.nextId == t.nextId
      && (s.result.Success? <==>
            && !(isPost && hash(t.rows[i].password).None?)
            && forall j :: 0 <= j < |t.rows| && j != i ==> t.rows[j].email != patch.email)
      && (s.result.Failure? ==> s.table == t)
      && (s.result.Success? ==>
            && |s.table.rows| == |t.rows|
            && (forall j :: 0 <= j < |t.rows| && j != i ==> s.table.rows[j] == t.rows[j])
            && var old_, new_ := t.rows[i], s.table.rows[i];
               && new_.firstName == patch.firstName && new_.lastName == patch.lastName
               && new_.dob == patch.dob && new_.email == patch.email
               && new_.age == AgeOf(patch.dob, today)
               && new_.id == old_.id && new_.verificationToken == old_.verificationToken
               && new_.verified == old_.verified && new_.tokenGeneratedAt == old_.tokenGeneratedAt
               && (!isPost ==> new_.password == old_.password))
  {
    FirstByEmailIsUnique(t.rows, email, i);
    SaveStepKeepsValid(t, i, Overwrite(t.rows[i], patch), isPost, today, hash);
  }

  /** UpdateUser fails with "record not found" and changes nothing when no record has the email. */
  lemma UpdateRejectsMissingEmail(t: Table, email: string, patch: User, isPost: bool, today: CalendarDate, hash: HashFn)
    requires !HasEmail(t.rows, email)
    ensures UpdateStep(t, email, patch, isPost, today, hash) == Step(t, Failure(RecordNotFound))
  {
  }

  /**
   * DeleteUser never reports an error, removes every record with the email
   * (none, when there is none) and leaves every other record as it was.
   */
  lemma DeleteRemovesOnlyThatEmail(t: Table, email: string)
    requires ValidTable(t)
    ensures var s := DeleteStep(t, email);
      && s.result == Success(())
      && ValidTable(s.table)
      && s.table.nextId == t.nextId
      && !HasEmail(s.table.rows, email)
      && (forall v :: v in s.table.rows <==> v in t.rows && v.email != email)
      && (!HasEmail(t.rows, email) ==> s.table.rows == t.rows)
  {
    var r := DeleteWhere(t.rows, EmailIs(email));
    DeleteWhereKeepsIdsAscending(t.rows, EmailIs(email));
    DeleteWhereKeepsEmailsUnique(t.rows, EmailIs(email));
    assert forall k :: 0 <= k < |r| ==> r[k] in t.rows;
    if !HasEmail(t.rows, email) {
      DeleteWhereNoMatch(t.rows, EmailIs(email));
    }
  }

  lemma {:induction false} DeleteWhereNoMatch(rows: seq<User>, w: Where)
    requires forall j :: 0 <= j < |rows| ==> !Matches(rows[j], w)
    ensures DeleteWhere(rows, w) == rows
  {
    if rows != [] {
      DeleteWhereNoMatch(rows[1..], w);
      assert rows == [rows[0]] + rows[1..];
    }
  }

  /**
   * ValidateToken: "invalid token" when no record holds the token, "token
   * expired" when more than 5 minutes have passed since the first such record
   * was issued its token, otherwise that record's email.
   */
  lemma TokenOwnerOutcome(rows: seq<User>, token: string, now: int)
    ensures TokenOwner(rows, token, now) == Failure(InvalidToken)
            <==> forall j :: 0 <= j < |rows| ==> rows[j].verificationToken != token
    ensures TokenOwner(rows, token, now).Success? ==>
      exists j :: 0 <= j < |rows| && rows[j].verificationToken == token
        && TokenOwner(rows, token, now).value == rows[j].email
        && now - rows[j].tokenGeneratedAt <= TokenLifetime
    ensures TokenOwner(rows, token, now).Failure? ==>
      TokenOwner(rows, token, now).error in {InvalidToken, TokenExpired}
  {
  }

  /** A token exactly 5 minutes old is still accepted; one second later it is expired. */
  lemma TokenLifetimeBoundary(rows: seq<User>, k: nat)
    requires k < |rows| && forall j :: 0 <= j < k ==> rows[j].verificationToken != rows[k].verificationToken
    ensures TokenOwner(rows, rows[k].verificationToken, rows[k].tokenGeneratedAt + 300) == Success(rows[k].email)
    ensures TokenOwner(rows, rows[k].verificationToken, rows[k].tokenGeneratedAt + 301) == Failure(TokenExpired)
  {
    var r := First(rows, TokenIs(rows[k].verificationToken));
    assert r == Some(k);
  }

  /** Once expired, a token stays expired. */
  lemma ExpiredTokenStaysExpired(rows: seq<User>, token: string, now: int, later: int)
    requires TokenOwner(rows, token, now) == Failure(TokenExpired) && now <= later
    ensures TokenOwner(rows, token, later) == Failure(TokenExpired)
  {
  }

  /**
   * VerifyUserByEmail on the stored record at index i: it succeeds unless the
   * save hook fails, then sets the verified flag, recomputes the age and
   * changes nothing else.
   */
  lemma {:induction false} VerifySetsFlag(t: Table, email: string, isPost: bool, today: CalendarDate,
                                          hash: HashFn, i: nat)
    requires ValidTable(t) && i < |t.rows| && t.rows[i].email == email
    ensures var s := VerifyStep(t, email, isPost, today, hash);
      && ValidTable(s.table)
      && (s.result.Success? <==> !(isPost && hash(t.rows[i].password).None?))
      && (s.result.Failure? ==> s == Step(t, Failure(VerificationNotSaved)))
      && (s.result.Success? ==>
            && s.table.nextId == t.nextId
            && |s.table.rows| == |t.rows|
            && (forall j :: 0 <= j < |t.rows| && j != i ==> s.table.rows[j] == t.rows[j])
            && s.table.rows[i].verified
            && s.table.rows[i].age == AgeOf(t.rows[i].dob, today)
            && (!isPost ==> s.table.rows[i] == t.rows[i].(verified := true, age := AgeOf(t.rows[i].dob, today))))
  {
    FirstByEmailIsUnique(t.rows, email, i);
    SaveStepKeepsValid(t, i, t.rows[i].(verified := true), isPost, today, hash);
    var s := SaveStep(t, i, t.rows[i].(verified := true), isPost, today, hash);
    if s.result.Success? {
      assert forall j :: 0 <= j < |t.rows| && j != i ==> t.rows[j].email != t.rows[i].email;
    }
  }

  /** VerifyUserByEmail fails with "user not found" and changes nothing when no record has the email. */
  lemma VerifyRejectsMissingEmail(t: Table, email: string, isPost: bool, today: CalendarDate, hash: HashFn)
    requires !HasEmail(t.rows, email)
    ensures VerifyStep(t, email, isPost, today, hash) == Step(t, Failure(UserNotFound))
  {
  }

  /** Verifying twice on the same day: the second call succeeds and changes nothing. */
  lemma {:induction false} VerifyIsIdempotent(t: Table, email: string, today: CalendarDate, hash: HashFn)
    requires ValidTable(t) && HasEmail(t.rows, email)
    ensures var once := VerifyStep(t, email, false, today, hash);
      && once.result.Success?
      && VerifyStep(once.table, email, false, today, hash) == Step(once.table, Success(()))
  {
    var i :| 0 <= i < |t.rows| && t.rows[i].email == email;
    VerifySetsFlag(t, email, false, today, hash, i);
    var once := VerifyStep(t, email, false, today, hash);
    VerifySetsFlag(once.table, email, false, today, hash, i);
    assert once.table.rows[i].(verified := true, age := AgeOf(once.table.rows[i].dob, today)) == once.table.rows[i];
    assert once.table.rows[i := once.table.rows[i]] == once.table.rows;
  }

  /**
   * The sign-up flow: a new user created with a fresh token, whose token is
   * presented within 5 minutes, is found by ValidateToken, and verifying that
   * email leaves the stored record verified.
   */
  lemma {:induction false} SignUpThenVerify(t: Table, u: User, today: CalendarDate, hash: HashFn, now: int)
    requires ValidTable(t)
    requires !HasEmail(t.rows, u.email) && u.id == 0 && hash(u.password).Some?
    requires forall j :: 0 <= j < |t.rows| ==> t.rows[j].verificationToken != u.verificationToken
    requires u.tokenGeneratedAt <= now <= u.tokenGeneratedAt + TokenLifetime
    ensures var created := CreateStep(t, u, true, today, hash);
      && created.result.Success?
      && TokenOwner(created.table.rows, u.verificationToken, now) == Success(u.email)
      && var verified := VerifyStep(created.table, u.email, false, today, hash);
         && verified.result.Success?
         && Lookup(verified.table.rows, u.email).Success?
         && Lookup(verified.table.rows, u.email).value.verified
  {
    CreateAddsOneRecord(t, u, true, today, hash);
    CreatedRecordIsStored(t, u, true, today, hash);
    var created := CreateStep(t, u, true, today, hash);
    var c := created.result.value;
    var rows := created.table.rows;
    assert c in rows;
    var k :| 0 <= k < |rows| && rows[k] == c;
    forall j | 0 <= j < |rows| && j != k ensures rows[j].verificationToken != u.verificationToken {
      assert rows[j] in t.rows;
    }
    assert First(rows, TokenIs(u.verificationToken)) == Some(k);
    VerifySetsFlag(created.table, u.email, false, today, hash, k);
    var verified := VerifyStep(created.table, u.email, false, today, hash);
    LookupFindsStoredRecord(verified.table, k);
  }

  // ---------------------------------------------------------------------------
  // The record lifecycle over every state-changing service

  datatype Op =
    | CreateOp(user: User, isPost: bool)
    | UpdateOp(email: string, patch: User, isPost: bool)
    | DeleteOp(email: string)
    | VerifyOp(email: string, isPost: bool)

  function Apply(t: Table, op: Op, today: CalendarDate, hash: HashFn): Table {
    match op
    case CreateOp(u, isPost) => CreateStep(t, u, isPost, today, hash).table
    case UpdateOp(email, patch, isPost) => UpdateStep(t, email, patch, isPost, today, hash).table
    case DeleteOp(email) => DeleteStep(t, email).table
    case VerifyOp(email, isPost) => VerifyStep(t, email, isPost, today, hash).table
  }

  /** A record that survives the step under the same id keeps its verified flag if it had it. */
  ghost predicate VerifiedKept(t: Table, t': Table) {
    forall m, j :: 0 <= m < |t.rows| && 0 <= j < |t'.rows| && t.rows[m].id == t'.rows[j].id && t.rows[m].verified
      ==> t'.rows[j].verified
  }

  /** Every verified record after the step was already verified under the same id before it. */
  ghost predicate NoNewlyVerified(t: Table, t': Table) {
    forall j :: 0 <= j < |t'.rows| && t'.rows[j].verified ==>
      exists m :: 0 <= m < |t.rows| && t.rows[m].id == t'.rows[j].id && t.rows[m].verified
  }

  lemma IdsDetermineRows(t: Table, m: nat, j: nat)
    requires ValidTable(t) && m < |t.rows| && j < |t.rows| && t.rows[m].id == t.rows[j].id
    ensures m == j
  {
  }

  /** A step after which every row is an old row or one row with a fresh id keeps the flags. */
  lemma AddingOneRowKeepsFlags(t: Table, t': Table, c: User)
    requires ValidTable(t) && ValidTable(t')
    requires forall v :: v in t'.rows ==> v in t.rows || v == c
    requires forall m :: 0 <= m < |t.rows| ==> t.rows[m].id != c.id
    ensures VerifiedKept(t, t')
    ensures !c.verified ==> NoNewlyVerified(t, t')
  {
    forall m, j | 0 <= m < |t.rows| && 0 <= j < |t'.rows| && t.rows[m].id == t'.rows[j].id
      ensures t'.rows[j] == t.rows[m]
    {
      assert t'.rows[j] in t.rows;
      var m' :| 0 <= m' < |t.rows| && t.rows[m'] == t'.rows[j];
      IdsDetermineRows(t, m, m');
    }
    if !c.verified {
      forall j | 0 <= j < |t'.rows| && t'.rows[j].verified
        ensures exists m :: 0 <= m < |t.rows| && t.rows[m].id == t'.rows[j].id && t.rows[m].verified
      {
        assert t'.rows[j] in t.rows;
      }
    }
  }

  /** A step that keeps every row's id in place and changes only row i keeps the flags if row i keeps its own. */
  lemma ChangingOneRowKeepsFlags(t: Table, t': Table, i: nat)
    requires ValidTable(t) && |t'.rows| == |t.rows| && i < |t.rows|
    requires forall j :: 0 <= j < |t.rows| ==> t'.rows[j].id == t.rows[j].id
    requires forall j :: 0 <= j < |t.rows| && j != i ==> t'.rows[j] == t.rows[j]
    requires t.rows[i].verified ==> t'.rows[i].verified
    ensures VerifiedKept(t, t')
    ensures t'.rows[i].verified == t.rows[i].verified ==> NoNewlyVerified(t, t')
  {
    forall m, j | 0 <= m < |t.rows| && 0 <= j < |t'.rows| && t.rows[m].id == t'.rows[j].id
      ensures m == j
    {
      IdsDetermineRows(t, m, j);
    }
  }

  /** CreateUser keeps the table valid and every existing record, and unverifies nothing. */
  lemma CreateKeepsLifecycle(t: Table, u: User, isPost: bool, today: CalendarDate, hash: HashFn)
    requires ValidTable(t)
    ensures var t' := CreateStep(t, u, isPost, today, hash).table;
      && ValidTable(t') && VerifiedKept(t, t') && (!u.verified ==> NoNewlyVerified(t, t'))
      && forall v :: v in t.rows ==> v in t'.rows
  {
    CreateAddsOneRecord(t, u, isPost, today, hash);
    var s := CreateStep(t, u, isPost, today, hash);
    if s.result.Success? {
      CreatedRecordIsStored(t, u, isPost, today, hash);
      var c := s.result.value;
      assert forall m :: 0 <= m < |t.rows| ==> t.rows[m].id != c.id;
      AddingOneRowKeepsFlags(t, s.table, c);
    }
  }

  /** DeleteUser keeps the table valid, only removes records, and changes no flag of those it keeps. */
  lemma DeleteKeepsLifecycle(t: Table, email: string)
    requires ValidTable(t)
    ensures var t' := DeleteStep(t, email).table;
      && ValidTable(t') && VerifiedKept(t, t') && NoNewlyVerified(t, t')
      && forall v :: v in t'.rows ==> v in t.rows
  {
    DeleteRemovesOnlyThatEmail(t, email);
    var t' := DeleteStep(t, email).table;
    var c := User(t.nextId, "", "", email, "", 0, "", "", false, 0);
    AddingOneRowKeepsFlags(t, t', c);
  }

  lemma UpdateKeepsLifecycle(t: Table, email: string, patch: User, isPost: bool, today: CalendarDate, hash: HashFn)
    requires ValidTable(t)
    ensures var t' := UpdateStep(t, email, patch, isPost, today, hash).table;
      ValidTable(t') && VerifiedKept(t, t') && NoNewlyVerified(t, t')
  {
    if HasEmail(t.rows, email) {
      var i :| 0 <= i < |t.rows| && t.rows[i].email == email;
      UpdateOverwritesFourFields(t, email, patch, isPost, today, hash, i);
      var t' := UpdateStep(t, email, patch, isPost, today, hash).table;
      if t' != t {
        ChangingOneRowKeepsFlags(t, t', i);
      }
    }
  }

  lemma VerifyKeepsLifecycle(t: Table, email: string, isPost: bool, today: CalendarDate, hash: HashFn)
    requires ValidTable(t)
    ensures var t' := VerifyStep(t, email, isPost, today, hash).table;
      ValidTable(t') && VerifiedKept(t, t')
  {
    if HasEmail(t.rows, email) {
      var i :| 0 <= i < |t.rows| && t.rows[i].email == email;
      VerifySetsFlag(t, email, isPost, today, hash, i);
      var t' := VerifyStep(t, email, isPost, today, hash).table;
      if t' != t {
        ChangingOneRowKeepsFlags(t, t', i);
      }
    }
  }

  /**
   * Every service keeps the table valid (ids ascending, emails unique); a
   * verified record never becomes unverified; and only VerifyUserByEmail, or
   * creating a record that is already flagged, makes a record verified.
   */
  lemma LifecycleInvariants(t: Table, op: Op, today: CalendarDate, hash: HashFn)
    requires ValidTable(t)
    ensures ValidTable(Apply(t, op, today, hash))
    ensures VerifiedKept(t, Apply(t, op, today, hash))
    ensures !op.VerifyOp? && !(op.CreateOp? && op.user.verified) ==> NoNewlyVerified(t, Apply(t, op, today, hash))
  {
    match op
    case CreateOp(u, isPost) => CreateKeepsLifecycle(t, u, isPost, today, hash);
    case UpdateOp(email, patch, isPost) => UpdateKeepsLifecycle(t, email, patch, isPost, today, hash);
    case DeleteOp(email) => DeleteKeepsLifecycle(t, email);
    case VerifyOp(email, isPost) => VerifyKeepsLifecycle(t, email, isPost, today, hash);
  }

  // ---------------------------------------------------------------------------
  // The store the services change in place

  /** The users table behind `database.DB`, with the password hasher its save hook uses. */
  class UserStore {
    var rows: seq<User>
    var nextId: nat
    const hash: HashFn

    ghost predicate Valid()
      reads this
    {
      ValidTable(Table(rows, nextId))
    }

    function State(): Table
      reads this
    {
      Table(rows, nextId)
    }

    constructor (hash: HashFn)
      ensures Valid() && rows == [] && nextId == 1 && this.hash == hash
    {
      rows := [];
      nextId := 1;
      this.hash := hash;
    }

    /** The ORM's Create. */
    method Insert(user: User, isPost: bool, today: CalendarDate) returns (res: Result<User, Error>)
      requires Valid()
      modifies this
      ensures Valid()
      ensures Step(State(), res) == InsertStep(old(State()), user, isPost, today, hash)
      ensures res.Failure? ==> unchanged(this)
    {
      InsertStepKeepsValid(State(), user, isPost, today, hash);
      var saved := BeforeSave(user, isPost, today, hash);
      if saved.Failure? {
        return Failure(saved.error);
      }
      var row := saved.value;
      if row.id == 0 {
        row := row.(id := nextId);
      }
      if exists j :: 0 <= j < |rows| && (rows[j].id == row.id || rows[j].email == row.email) {
        return Failure(DuplicateEntry);
      }
      rows := InsertById(rows, row);
      if row.id >= nextId {
        nextId := row.id + 1;
      }
      res := Success(row);
    }

    /** The ORM's Save of a record loaded from row i. */
    method Save(i: nat, user: User, isPost: bool, today: CalendarDate) returns (res: Result<User, Error>)
      requires Valid() && i < |rows| && user.id == rows[i].id
      modifies this
      ensures Valid()
      ensures Step(State(), res) == SaveStep(old(State()), i, user, isPost, today, hash)
      ensures res.Failure? ==> unchanged(this)
    {
      SaveStepKeepsValid(State(), i, user, isPost, today, hash);
      var saved := BeforeSave(user, isPost, today, hash);
      if saved.Failure? {
        return Failure(saved.error);
      }
      if exists j :: 0 <= j < |rows| && j != i && rows[j].email == saved.value.email {
        return Failure(DuplicateEntry);
      }
      rows := rows[i := saved.value];
      res := Success(saved.value);
    }

    /** CreateUser: check that the email is not taken, then insert. */
    method CreateUser(user: User, isPost: bool, today: CalendarDate) returns (res: Result<User, Error>)
      requires Valid()
      modifies this
      ensures Valid()
      ensures Step(State(), res) == CreateStep(old(State()), user, isPost, today, hash)
      ensures old(HasEmail(rows, user.email)) ==> res == Failure(UserAlreadyExists) && unchanged(this)
      ensures res.Failure? ==> unchanged(this)
    {
      var existing := First(rows, EmailIs(user.email));
      if existing.Some? {
        return Failure(UserAlreadyExists);
      }
      res := Insert(user, isPost, today);
    }

    /** GetUserByEmail: the stored record with that email. */
    method GetUserByEmail(email: string) returns (res: Result<User, Error>)
      requires Valid()
      ensures res == Lookup(rows, email)
      ensures res.Success? <==> HasEmail(rows, email)
      ensures res.Success? ==> res.value in rows && res.value.email == email
    {
      var found := First(rows, EmailIs(email));
      if found.None? {
        return Failure(RecordNotFound);
      }
      res := Success(rows[found.value]);
    }

    /** UpdateUser: load the record with `email`, copy four fields from `updatedUser`, save. */
    method UpdateUser(email: string, updatedUser: User, isPost: bool, today: CalendarDate)
      returns (res: Result<(), Error>)
      requires Valid()
      modifies this
      ensures Valid()
      ensures Step(State(), res) == UpdateStep(old(State()), email, updatedUser, isPost, today, hash)
      ensures old(!HasEmail(rows, email)) ==> res == Failure(RecordNotFound) && unchanged(this)
      ensures res.Failure? ==> unchanged(this)
    {
      var found := First(rows, EmailIs(email));
      if found.None? {
        return Failure(RecordNotFound);
      }
      var i := found.value;
      var user := rows[i];
      user := user.(firstName := updatedUser.firstName);
      user := user.(lastName := updatedUser.lastName);
      user := user.(dob := updatedUser.dob);
      user := user.(email := updatedUser.email);
      assert user == Overwrite(rows[i], updatedUser);
      var saved := Save(i, user, isPost, today);
      if saved.Failure? {
        return Failure(saved.error);
      }
      res := Success(());
    }

    /** DeleteUser: remove the rows with that email; never an error. */
    method DeleteUser(email: string) returns (res: Result<(), Error>)
      requires Valid()
      modifies this
      ensures Valid()
      ensures Step(State(), res) == DeleteStep(old(State()), email)
      ensures res == Success(()) && !HasEmail(rows, email) && nextId == old(nextId)
    {
      DeleteRemovesOnlyThatEmail(State(), email);
      rows := DeleteWhere(rows, EmailIs(email));
      res := Success(());
    }

    /** ValidateToken: the email of the record holding the token, if issued at most 5 minutes ago. */
    method ValidateToken(token: string, now: int) returns (res: Result<string, Error>)
      requires Valid()
      ensures res == TokenOwner(rows, token, now)
      ensures res == Failure(InvalidToken) <==> forall j :: 0 <= j < |rows| ==> rows[j].verificationToken != token
    {
      TokenOwnerOutcome(rows, token, now);
      var found := First(rows, TokenIs(token));
      if found.None? {
        return Failure(InvalidToken);
      }
      var user := rows[found.value];
      if now - user.tokenGeneratedAt > TokenLifetime {
        return Failure(TokenExpired);
      }
      res := Success(user.email);
    }

    /** VerifyUserByEmail: load the record with that email, set its flag, save. */
    method VerifyUserByEmail(email: string, isPost: bool, today: CalendarDate) returns (res: Result<(), Error>)
      requires Valid()
      modifies this
      ensures Valid()
      ensures Step(State(), res) == VerifyStep(old(State()), email, isPost, today, hash)
      ensures old(!HasEmail(rows, email)) ==> res == Failure(UserNotFound) && unchanged(this)
      ensures res.Failure? ==> unchanged(this)
    {
      var found := First(rows, EmailIs(email));
      if found.None? {
        return Failure(UserNotFound);
      }
      var i := found.value;
      var user := rows[i];
      user := user.(verified := true);
      var saved := Save(i, user, isPost, today);
      if saved.Failure? {
        return Failure(VerificationNotSaved);
      }
      res := Success(());
    }
  }
}
