/** The sign-in screen: choosing a user and typing a password, or
    registering a new account. */
module Auth {
  import opened Types
  import opened Seqs
  import opened Strings
  import App

  const WrongPassword: string := "Неверный пароль"

  /** The user chosen when the screen opens: the first user, if any. */
  function InitialChoice(users: seq<User>): (id: string)
    ensures |users| > 0 ==> id == users[0].id
    ensures |users| == 0 ==> id == ""
  {
    if |users| > 0 then users[0].id else ""
  }

  /** The outcome of pressing "sign in": who signs in, if anyone, and the
      error shown afterwards. */
  datatype LoginResult = LoginResult(signedIn: Option<User>, error: string)

  function UserById(users: seq<User>, id: string): (r: Option<User>)
    ensures r.None? <==> forall i :: 0 <= i < |users| ==> users[i].id != id
    ensures r.Some? ==> exists k :: 0 <= k < |users| && users[k] == r.value && r.value.id == id
                                  && forall j :: 0 <= j < k ==> users[j].id != id
  {
    Find((u: User) => u.id == id, users)
  }

  /** The error is cleared first; the first user with the chosen id signs
      in when the typed password is the stored one, and otherwise the
      wrong-password error is shown. An unknown id does nothing. */
  function LoginSubmit(users: seq<User>, chosenId: string, typed: string): (r: LoginResult)
    ensures r.signedIn.Some? <==> UserById(users, chosenId).Some? && UserById(users, chosenId).value.password == Some(typed)
    ensures r.signedIn.Some? ==> r.signedIn == UserById(users, chosenId) && r.error == ""
    ensures r.error == WrongPassword <==> UserById(users, chosenId).Some? && UserById(users, chosenId).value.password != Some(typed)
    ensures r.error == "" || r.error == WrongPassword
  {
    match UserById(users, chosenId)
    case None => LoginResult(None, "")
    case Some(u) => if u.password == Some(typed) then LoginResult(Some(u), "") else LoginResult(None, WrongPassword)
  }

  /** A user without a stored password never signs in, whatever is typed. */
  lemma NoPasswordNoLogin(users: seq<User>, chosenId: string, typed: string)
    requires UserById(users, chosenId).Some? && UserById(users, chosenId).value.password.None?
    ensures LoginSubmit(users, chosenId, typed).signedIn.None?
    ensures LoginSubmit(users, chosenId, typed).error == WrongPassword
  {
  }

  /** Signing in through the screen opens the home view with that user's
      session; the user is one of the known users. */
  lemma LoginOpensSession(st: App.AppState, chosenId: string, typed: string)
    requires LoginSubmit(st.users, chosenId, typed).signedIn.Some?
    ensures var u := LoginSubmit(st.users, chosenId, typed).signedIn.value;
      && u in st.users && u.id == chosenId && u.password == Some(typed)
      && App.Login(st, u).session == Some(u) && App.Login(st, u).view == HomeView
  {
  }

  const InitialRole: UserRole := Employee

  datatype Registration = Registration(name: string, role: UserRole, password: string)

  /** Registering goes ahead only when name and password each hold a
      non-space character, and then passes them on untrimmed. */
  function RegisterSubmit(name: string, role: UserRole, password: string): (r: Option<Registration>)
    ensures r.Some? <==> Trim(name) != "" && Trim(password) != ""
    ensures r.Some? ==> r.value == Registration(name, role, password)
  {
    if Trim(name) != "" && Trim(password) != "" then Some(Registration(name, role, password)) else None
  }

  /** The registration form starts on the employee role: a form whose
      role was left alone registers an employee. */
  lemma UntouchedRoleIsEmployee(name: string, password: string)
    requires RegisterSubmit(name, InitialRole, password).Some?
    ensures RegisterSubmit(name, InitialRole, password).value.role == Employee
  {
  }

  /** A name or password made only of white space is refused; any other
      registers with exactly what was typed. */
  lemma BlankRegistrationRefused(name: string, role: UserRole, password: string)
    ensures RegisterSubmit(name, role, password).None? <==>
      (forall j :: 0 <= j < |name| ==> IsSpace(name[j])) || (forall j :: 0 <= j < |password| ==> IsSpace(password[j]))
  {
  }

  /** A registration accepted by the screen creates a user under the typed
      name with the typed password and signs that user in; when the new id
      is not taken, that password also signs the user in later. */
  lemma RegisterCreatesUser(st: App.AppState, name: string, role: UserRole, password: string,
                            now: string, colorIndex: nat)
    requires colorIndex < |App.AvatarColors|
    requires RegisterSubmit(name, role, password).Some?
    requires forall i :: 0 <= i < |st.users| ==> st.users[i].id != now
    ensures var r := App.Register(st, name, role, password, now, colorIndex);
      var u := r.users[|st.users|];
      && u.name == name && u.password == Some(password) && u.role == role
      && r.session == Some(u)
      && LoginSubmit(r.users, u.id, password).signedIn.Some?
  {
    var r := App.Register(st, name, role, password, now, colorIndex);
    var u := r.users[|st.users|];
    assert r.users[|st.users|].id == u.id;
    assert forall j :: 0 <= j < |st.users| ==> r.users[j].id != u.id;
  }
}
