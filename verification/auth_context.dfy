/**
 * The front-end-only user registry: a list of user records kept in local
 * storage, the signed-in user held in component state, and that user
 * mirrored into local storage. Both storage entries are fields here; the
 * generated id and the random number behind a Google address are parameters.
 */
module Auth {
  import opened Wrappers

  /** The signed-in user as the rest of the client sees it. */
  datatype User = User(id: string, email: string, username: Option<string>)

  /** A registry record as stored. */
  datatype UserRecord = UserRecord(id: string, email: string, password: string, username: Option<string>)

  datatype AuthError = InvalidCredentials | UserAlreadyExists | EmailNotFound

  /** How an operation's promise settles. */
  datatype Outcome = Resolved | Rejected(error: AuthError)

  const GoogleUsername: string := "Google User"

  /** The fields of a record that become the signed-in user (the password stays behind). */
  function PublicView(r: UserRecord): User {
    User(r.id, r.email, r.username)
  }

  /** `users.find(test)`, as the index of the first record that passes `test`. */
  function FindIndex(users: seq<UserRecord>, test: UserRecord -> bool): (r: Option<nat>)
    ensures r.Some? ==> r.value < |users| && test(users[r.value])
    ensures r.Some? ==> forall k :: 0 <= k < r.value ==> !test(users[k])
    ensures r.None? ==> forall k :: 0 <= k < |users| ==> !test(users[k])
  {
    if users == [] then None
    else if test(users[0]) then Some(0)
    else match FindIndex(users[1..], test)
      case None => None
      case Some(k) => Some(k + 1)
  }

  /** Some record is registered under `email`. */
  predicate Registered(users: seq<UserRecord>, email: string) {
    exists k :: 0 <= k < |users| && users[k].email == email
  }

  /** No two records share an email. */
  predicate UniqueEmails(users: seq<UserRecord>) {
    forall i, j :: 0 <= i < j < |users| ==> users[i].email != users[j].email
  }

  /** Decimal digits of `n`, as a template literal prints a non-negative integer. */
  function Decimal(n: nat): (r: string)
    ensures |r| >= 1
    ensures forall k :: 0 <= k < |r| ==> '0' <= r[k] <= '9'
  {
    var d := ['0' + (n % 10) as char];
    if n < 10 then d else Decimal(n / 10) + d
  }

  /** The number a string of decimal digits denotes. */
  function DigitsValue(s: string): nat
    requires forall k :: 0 <= k < |s| ==> '0' <= s[k] <= '9'
    decreases |s|
  {
    if s == [] then 0 else DigitsValue(s[..|s| - 1]) * 10 + (s[|s| - 1] as int - '0' as int)
  }

  /** Printing a number and reading its digits back gives the number. */
  lemma {:induction false} DecimalRoundTrip(n: nat)
    ensures DigitsValue(Decimal(n)) == n
  {
    var r := Decimal(n);
    if n >= 10 {
      DecimalRoundTrip(n / 10);
      assert r[..|r| - 1] == Decimal(n / 10);
    }
  }

  /** The simulated Google address for the random number `n`. */
  function GoogleEmail(n: nat): string {
    "google_user_" + Decimal(n) + "@example.com"
  }

  /** Different random numbers give different Google addresses, so they never share a record. */
  lemma GoogleEmailInjective(n: nat, m: nat)
    requires GoogleEmail(n) == GoogleEmail(m)
    ensures n == m
  {
    var e := GoogleEmail(n);
    assert Decimal(n) == e[12..|e| - 12];
    assert Decimal(m) == e[12..|e| - 12];
    DecimalRoundTrip(n);
    DecimalRoundTrip(m);
  }

  class AuthProvider {
    /** The stored user list. */
    var users: seq<UserRecord>
    /** The `user` state. */
    var user: Option<User>
    /** The stored signed-in user; absent is None. */
    var storedAuth: Option<User>

    /** The state and its stored copy agree. */
    ghost predicate Valid()
      reads this
    {
      user == storedAuth
    }

    /** Mounting the provider: the stored user, if any, becomes the state. */
    constructor (storedUsers: seq<UserRecord>, stored: Option<User>)
      ensures Valid()
      ensures users == storedUsers && user == stored && storedAuth == stored
    {
      users, user, storedAuth := storedUsers, stored, stored;
    }

    /** Sets the state and writes it to storage, or removes the stored entry for None. */
    method PersistAuth(u: Option<User>)
      modifies this`user, this`storedAuth
      ensures Valid()
      ensures user == u && storedAuth == u
    {
      user := u;
      storedAuth := u;
    }

    /**
     * Succeeds exactly when some record has this email and password; the
     * first such record's public fields become the signed-in user. A failure
     * changes nothing. The registry is never written.
     */
    method SignIn(email: string, password: string) returns (out: Outcome)
      requires Valid()
      modifies this`user, this`storedAuth
      ensures Valid() && users == old(users)
      ensures out.Resolved? <==>
        exists k :: 0 <= k < |users| && users[k].email == email && users[k].password == password
      ensures out.Rejected? ==> out.error == InvalidCredentials && user == old(user)
      ensures out.Resolved? ==>
        var k := FindIndex(users, (r: UserRecord) => r.email == email && r.password == password).value;
        user == Some(PublicView(users[k]))
    {
      var found := FindIndex(users, (r: UserRecord) => r.email == email && r.password == password);
      if found.None? {
        return Rejected(InvalidCredentials);
      }
      PersistAuth(Some(PublicView(users[found.value])));
      out := Resolved;
    }

    /**
     * Fails, changing nothing, when the email is registered. Otherwise
     * appends one record at the end of the registry and signs it in. Unique
     * emails stay unique.
     */
    method SignUp(email: string, password: string, username: Option<string>, freshId: string)
      returns (out: Outcome)
      requires Valid()
      modifies this`users, this`user, this`storedAuth
      ensures Valid()
      ensures out.Rejected? <==> Registered(old(users), email)
      ensures out.Rejected? ==>
        out.error == UserAlreadyExists && users == old(users) && user == old(user)
      ensures out.Resolved? ==>
        users == old(users) + [UserRecord(freshId, email, password, username)] &&
        user == Some(User(freshId, email, username))
      ensures UniqueEmails(old(users)) ==> UniqueEmails(users)
    {
      if FindIndex(users, (r: UserRecord) => r.email == email).Some? {
        return Rejected(UserAlreadyExists);
      }
      users := users + [UserRecord(freshId, email, password, username)];
      PersistAuth(Some(User(freshId, email, username)));
      out := Resolved;
    }

    /**
     * Signs in the simulated Google account for random number `n`: an
     * existing record with that address is reused and the registry is left
     * alone; otherwise a record with an empty password and the Google
     * username is appended. Unique emails stay unique.
     */
    method SignInWithGoogle(n: nat, freshId: string)
      requires Valid() && n < 10000
      modifies this`users, this`user, this`storedAuth
      ensures Valid()
      ensures var email := GoogleEmail(n);
        if Registered(old(users), email) then
          users == old(users) &&
          user == Some(PublicView(users[FindIndex(users, (r: UserRecord) => r.email == email).value]))
        else
          users == old(users) + [UserRecord(freshId, email, "", Some(GoogleUsername))] &&
          user == Some(User(freshId, email, Some(GoogleUsername)))
      ensures UniqueEmails(old(users)) ==> UniqueEmails(users)
    {
      var email := GoogleEmail(n);
      var k := FindIndex(users, (r: UserRecord) => r.email == email);
      var found: UserRecord;
      if k.Some? {
        found := users[k.value];
      } else {
        found := UserRecord(freshId, email, "", Some(GoogleUsername));
        users := users + [found];
      }
      PersistAuth(Some(PublicView(found)));
    }

    /** Pretends to send a reset link: fails exactly when the email is not registered; changes nothing. */
    method ResetPassword(email: string) returns (out: Outcome)
      ensures out == if Registered(users, email) then Resolved else Rejected(EmailNotFound)
    {
      if FindIndex(users, (r: UserRecord) => r.email == email).None? {
        return Rejected(EmailNotFound);
      }
      return Resolved;
    }

    /** Clears the signed-in user and its stored copy. */
    method SignOut()
      modifies this`user, this`storedAuth
      ensures Valid()
      ensures user.None? && storedAuth.None?
    {
      PersistAuth(None);
    }
  }

  /**
   * A record appended for an email that was not registered is what a later
   * sign-in with the same email and password finds.
   */
  lemma SignUpThenSignIn(users: seq<UserRecord>, rec: UserRecord)
    requires !Registered(users, rec.email)
    ensures FindIndex(users + [rec], (r: UserRecord) => r.email == rec.email && r.password == rec.password)
      == Some(|users|)
  {
    assert (users + [rec])[|users|] == rec;
  }

  /** With unique emails, looking a user up by email finds the one record that has it. */
  lemma FindUniqueEmail(users: seq<UserRecord>, k: nat)
    requires UniqueEmails(users) && k < |users|
    ensures FindIndex(users, (r: UserRecord) => r.email == users[k].email) == Some(k)
  {
    var r := FindIndex(users, (r: UserRecord) => r.email == users[k].email);
    assert r.Some?;
  }
}
