/**
 * The account routes of auth.js: self-registration, login, logout and the startup
 * routine that provisions the default administrator.  The user collection and the
 * session slot are fields of one `Accounts` object that the handlers update in place.
 */
module Auth {
  import opened Common

  const AdminEmail: string := "admin@example.com"
  const AdminName: string := "Super Admin"
  const AdminPassword: string := "admin123"

  const MsgFillAll: string := "Please fill all fields"
  const MsgAdminReserved: string := "Admin cannot be registered. Use the given credentials."
  const MsgEmailTaken: string := "Email already registered"
  const MsgRegistered: string := "Registration successful! Redirecting to login..."
  const MsgEnterAll: string := "Enter all fields"
  const MsgInvalid: string := "Invalid credentials"

  datatype Role = UserRole | AdminRole

  /** A bcrypt digest.  A digest is never a string; every stored digest comes from `hash`. */
  datatype Digest = Digest(code: nat)

  /** A stored user record (models/User): the password is kept only as a digest. */
  datatype User = User(id: nat, name: string, email: string, passwordHash: Digest, role: Role)

  /** What a successful login keeps in the session. */
  datatype SessionUser = SessionUser(id: nat, name: string, email: string, role: Role)

  /** The submitted form body; a field the client left out is `None`. */
  datatype Form = Form(name: Option<string>, email: Option<string>, password: Option<string>)

  /** The empty form object `{}` shown after a successful registration. */
  const EmptyForm: Form := Form(None, None, None)

  datatype View = RegisterView | LoginView

  /** What a handler hands to the rendering layer: a page with its fields, or a redirect. */
  datatype Outcome =
    | Render(view: View, error: Option<string>, success: Option<string>, form: Form)
    | Redirect(location: string)

  /** The session object of a successful login: the record's id, name, email and role, and nothing of its digest. */
  function Identity(u: User): SessionUser
  {
    SessionUser(u.id, u.name, u.email, u.role)
  }

  /** The failed-login page; it depends on the submitted form only. */
  function InvalidCredentials(form: Form): Outcome
  {
    Render(LoginView, Some(MsgInvalid), None, form)
  }

  /** `User.findOne({ email })`: the first record whose email is exactly `email`. */
  function FindByEmail(users: seq<User>, email: string): (r: Option<User>)
    ensures r.Some? ==> r.value in users && r.value.email == email
    ensures r.None? <==> forall i :: 0 <= i < |users| ==> users[i].email != email
  {
    if users == [] then None
    else if users[0].email == email then Some(users[0])
    else FindByEmail(users[1..], email)
  }

  /** The number of records stored under `email`. */
  function CountEmail(users: seq<User>, email: string): (n: nat)
    ensures n == 0 <==> FindByEmail(users, email).None?
    ensures n <= |users|
  {
    if users == [] then 0
    else (if users[0].email == email then 1 else 0) + CountEmail(users[1..], email)
  }

  /** The number of records holding the administrator role. */
  function CountAdmins(users: seq<User>): (n: nat)
    ensures n == 0 <==> forall i :: 0 <= i < |users| ==> users[i].role != AdminRole
  {
    if users == [] then 0
    else (if users[0].role == AdminRole then 1 else 0) + CountAdmins(users[1..])
  }

  predicate EmailsLower(users: seq<User>)
  {
    forall i :: 0 <= i < |users| ==> IsLower(users[i].email)
  }

  predicate EmailsUnique(users: seq<User>)
  {
    forall i, j :: 0 <= i < j < |users| ==> users[i].email != users[j].email
  }

  /** Store-assigned ids increase in insertion order and stay below the next id to hand out. */
  predicate IdsFresh(users: seq<User>, nextId: nat)
  {
    (forall i :: 0 <= i < |users| ==> users[i].id < nextId) &&
    (forall i, j :: 0 <= i < j < |users| ==> users[i].id < users[j].id)
  }

  /** Only the reserved address holds the administrator role, and it always does. */
  predicate AdminOnlyAtReservedEmail(users: seq<User>)
  {
    forall i :: 0 <= i < |users| ==> (users[i].role == AdminRole <==> users[i].email == AdminEmail)
  }

  /** The invariant every handler keeps on the user collection. */
  predicate UsersValid(users: seq<User>, nextId: nat)
  {
    EmailsLower(users) && EmailsUnique(users) && IdsFresh(users, nextId) && AdminOnlyAtReservedEmail(users)
  }

  predicate IsIdentityOf(users: seq<User>, s: SessionUser)
  {
    exists i :: 0 <= i < |users| && Identity(users[i]) == s
  }

  lemma AdminEmailIsLower()
    ensures IsLower(AdminEmail)
  {
  }

  /** With unique emails an address is stored at most once. */
  lemma {:induction false} CountEmailUnique(users: seq<User>, email: string)
    requires EmailsUnique(users)
    ensures CountEmail(users, email) == if FindByEmail(users, email).Some? then 1 else 0
  {
    if users != [] {
      assert EmailsUnique(users[1..]) by {
        forall i, j | 0 <= i < j < |users[1..]| ensures users[1..][i].email != users[1..][j].email {
          assert users[1..][i] == users[i + 1] && users[1..][j] == users[j + 1];
        }
      }
      CountEmailUnique(users[1..], email);
      if users[0].email == email {
        assert forall i :: 0 <= i < |users[1..]| ==> users[1..][i].email != email by {
          forall i | 0 <= i < |users[1..]| ensures users[1..][i].email != email {
            assert users[1..][i] == users[i + 1];
          }
        }
      }
    }
  }

  /** With the role tied to the reserved address, the administrators are the records at that address. */
  lemma {:induction false} AdminsAreReservedRecords(users: seq<User>)
    requires AdminOnlyAtReservedEmail(users)
    ensures CountAdmins(users) == CountEmail(users, AdminEmail)
  {
    if users != [] {
      assert AdminOnlyAtReservedEmail(users[1..]) by {
        forall i | 0 <= i < |users[1..]|
          ensures users[1..][i].role == AdminRole <==> users[1..][i].email == AdminEmail
        {
          assert users[1..][i] == users[i + 1];
        }
      }
      AdminsAreReservedRecords(users[1..]);
    }
  }

  /** Appending a record with a fresh id and a lower-case, unused email whose role matches its address keeps the invariant. */
  lemma InsertKeepsUsersValid(users: seq<User>, nextId: nat, u: User)
    requires UsersValid(users, nextId)
    requires u.id == nextId && IsLower(u.email) && FindByEmail(users, u.email).None?
    requires u.role == AdminRole <==> u.email == AdminEmail
    ensures UsersValid(users + [u], nextId + 1)
  {
    var s := users + [u];
    assert forall i :: 0 <= i < |users| ==> s[i] == users[i];
    assert s[|users|] == u;
  }

  /** The user collection of the credential store together with the session slot of one client. */
  class Accounts {
    /** `bcrypt.hash` with its salt and cost factor abstracted away; `bcrypt.compare(p, d)` is `hash(p) == d`. */
    const hash: string -> Digest
    var users: seq<User>
    /** The id the store assigns to the next record it creates. */
    var nextId: nat
    var sessionUser: Option<SessionUser>

    ghost predicate Valid()
      reads this
    {
      UsersValid(users, nextId) &&
      (sessionUser.Some? ==> IsIdentityOf(users, sessionUser.value))
    }

    constructor (hash: string -> Digest)
      ensures Valid()
      ensures this.hash == hash && users == [] && nextId == 0 && sessionUser == None
    {
      this.hash := hash;
      users := [];
      nextId := 0;
      sessionUser := None;
    }

    /** POST /register. */
    method Register(form: Form) returns (out: Outcome)
      requires Valid()
      modifies this
      ensures Valid()
      ensures sessionUser == old(sessionUser)
      ensures !Filled(form.name) || !Filled(form.email) || !Filled(form.password) ==>
                out == Render(RegisterView, Some(MsgFillAll), None, form) &&
                users == old(users) && nextId == old(nextId)
      ensures Filled(form.name) && Filled(form.email) && Filled(form.password) &&
              Lower(form.email.value) == AdminEmail ==>
                out == Render(RegisterView, Some(MsgAdminReserved), None, form) &&
                users == old(users) && nextId == old(nextId)
      ensures Filled(form.name) && Filled(form.email) && Filled(form.password) &&
              Lower(form.email.value) != AdminEmail &&
              FindByEmail(old(users), Lower(form.email.value)).Some? ==>
                out == Render(RegisterView, Some(MsgEmailTaken), None, form) &&
                users == old(users) && nextId == old(nextId)
      ensures Filled(form.name) && Filled(form.email) && Filled(form.password) &&
              Lower(form.email.value) != AdminEmail &&
              FindByEmail(old(users), Lower(form.email.value)).None? ==>
                out == Render(RegisterView, None, Some(MsgRegistered), EmptyForm) &&
                users == old(users) + [User(old(nextId), form.name.value, Lower(form.email.value),
                                            hash(form.password.value), UserRole)] &&
                nextId == old(nextId) + 1
    {
      if !Filled(form.name) || !Filled(form.email) || !Filled(form.password) {
        return Render(RegisterView, Some(MsgFillAll), None, form);
      }
      var email := Lower(form.email.value);
      if email == AdminEmail {
        return Render(RegisterView, Some(MsgAdminReserved), None, form);
      }
      var existing := FindByEmail(users, email);
      if existing.Some? {
        return Render(RegisterView, Some(MsgEmailTaken), None, form);
      }
      var u := User(nextId, form.name.value, email, hash(form.password.value), UserRole);
      InsertKeepsUsersValid(users, nextId, u);
      ghost var before := users;
      users := users + [u];
      nextId := nextId + 1;
      if sessionUser.Some? {
        ghost var i :| 0 <= i < |before| && Identity(before[i]) == sessionUser.value;
        assert users[i] == before[i];
      }
      out := Render(RegisterView, None, Some(MsgRegistered), EmptyForm);
    }

    /** POST /login. */
    method Login(form: Form) returns (out: Outcome)
      requires Valid()
      modifies `sessionUser
      ensures Valid()
      ensures !Filled(form.email) || !Filled(form.password) ==>
                out == Render(LoginView, Some(MsgEnterAll), None, form) && sessionUser == old(sessionUser)
      ensures Filled(form.email) && Filled(form.password) ==>
                var found := FindByEmail(users, Lower(form.email.value));
                if found.Some? && hash(form.password.value) == found.value.passwordHash
                then out == Redirect("/") && sessionUser == Some(Identity(found.value))
                else out == InvalidCredentials(form) && sessionUser == old(sessionUser)
    {
      if !Filled(form.email) || !Filled(form.password) {
        return Render(LoginView, Some(MsgEnterAll), None, form);
      }
      var user := FindByEmail(users, Lower(form.email.value));
      if user.None? {
        return InvalidCredentials(form);
      }
      var matches := hash(form.password.value) == user.value.passwordHash;
      if !matches {
        return InvalidCredentials(form);
      }
      ghost var i :| 0 <= i < |users| && users[i] == user.value;
      sessionUser := Some(Identity(user.value));
      out := Redirect("/");
    }

    /** POST /logout: the session is gone whether or not the store reported an error destroying it. */
    method Logout(destroyFailed: bool) returns (out: Outcome)
      requires Valid()
      modifies `sessionUser
      ensures Valid()
      ensures sessionUser == None && out == Redirect("/login")
    {
      sessionUser := None;
      out := Redirect("/login");
    }

    /** The startup routine: create the default administrator unless the reserved address is taken. */
    method EnsureAdmin()
      requires Valid()
      modifies this
      ensures Valid()
      ensures sessionUser == old(sessionUser)
      ensures FindByEmail(old(users), AdminEmail).Some? ==> users == old(users) && nextId == old(nextId)
      ensures FindByEmail(old(users), AdminEmail).None? ==>
                users == old(users) + [User(old(nextId), AdminName, AdminEmail, hash(AdminPassword), AdminRole)] &&
                nextId == old(nextId) + 1
      ensures CountEmail(users, AdminEmail) == 1 && CountAdmins(users) == 1
    {
      var existingAdmin := FindByEmail(users, AdminEmail);
      if existingAdmin.None? {
        var u := User(nextId, AdminName, AdminEmail, hash(AdminPassword), AdminRole);
        AdminEmailIsLower();
        InsertKeepsUsersValid(users, nextId, u);
        ghost var before := users;
        users := users + [u];
        nextId := nextId + 1;
        if sessionUser.Some? {
          ghost var i :| 0 <= i < |before| && Identity(before[i]) == sessionUser.value;
          assert users[i] == before[i];
        }
        assert users[|users| - 1] == u;
        assert FindByEmail(users, AdminEmail).Some?;
      }
      CountEmailUnique(users, AdminEmail);
      AdminsAreReservedRecords(users);
    }

    /** Two startups in a row leave the collection as one startup does. */
    method RestartTwice()
      requires Valid()
      modifies this
      ensures Valid()
      ensures sessionUser == old(sessionUser)
      ensures FindByEmail(old(users), AdminEmail).Some? ==> users == old(users) && nextId == old(nextId)
      ensures FindByEmail(old(users), AdminEmail).None? ==>
                users == old(users) + [User(old(nextId), AdminName, AdminEmail, hash(AdminPassword), AdminRole)] &&
                nextId == old(nextId) + 1
      ensures CountAdmins(users) == 1
    {
      EnsureAdmin();
      ghost var once, onceNext := users, nextId;
      EnsureAdmin();
      assert users == once && nextId == onceNext;
    }
  }

  /**
   * Register into an empty store, then log in with a wrong and with the right password:
   * the address is stored lower-cased, the wrong password is refused, the right one logs in
   * with the user role, whatever the casing of the address at registration.
   */
  method RegisterThenLogin(hash: string -> Digest, name: string, email: string, password: string, guess: string)
    returns (a: Accounts, wrong: Outcome, right: Outcome)
    requires name != "" && email != "" && password != "" && guess != ""
    requires Lower(email) != AdminEmail
    requires hash(guess) != hash(password)
    ensures fresh(a) && a.Valid()
    ensures a.users == [User(0, name, Lower(email), hash(password), UserRole)]
    ensures wrong == InvalidCredentials(Form(None, Some(Lower(email)), Some(guess)))
    ensures right == Redirect("/")
    ensures a.sessionUser == Some(SessionUser(0, name, Lower(email), UserRole))
  {
    a := new Accounts(hash);
    var registered := a.Register(Form(Some(name), Some(email), Some(password)));
    assert a.users[0].email == Lower(email);
    LowerIdempotent(email);
    wrong := a.Login(Form(None, Some(Lower(email)), Some(guess)));
    right := a.Login(Form(None, Some(Lower(email)), Some(password)));
  }
}
