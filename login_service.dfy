/** LoginService.cs: the stored user is looked up by name (case-insensitively,
    as the store's collation does), then its name and password must equal
    the typed ones exactly. A missing user makes the lookup's result null;
    the null dereference is caught, logged and answered with false. */
module LoginServices {
  import opened Outcomes
  import opened Text
  import opened Store
  import opened UserServices

  /** The answer Authenticate gives over the USERS table. */
  function Authentication(users: seq<UserRow>, username: string, password: string): (r: Result<bool>)
    ensures r.Failure? ==> r.error == InvalidCredentials
    ensures r == Success(false) <==> forall i :: 0 <= i < |users| ==> !EqualsIgnoreCase(users[i].name, username)
  {
    match FindUserByName(users, username)
    case None => Success(false)
    case Some(row) =>
      if row.name != username || row.password != password then Failure(InvalidCredentials) else Success(true)
  }

  /** Access is granted exactly when the first row whose name matches
      case-insensitively carries the typed name and password verbatim. */
  lemma AuthenticatedIff(users: seq<UserRow>, username: string, password: string)
    ensures Authentication(users, username, password) == Success(true) <==>
              exists i :: 0 <= i < |users| && users[i].name == username && users[i].password == password
                          && forall j :: 0 <= j < i ==> !EqualsIgnoreCase(users[j].name, username)
  {
    var p := (u: UserRow) => EqualsIgnoreCase(u.name, username);
    if Authentication(users, username, password) == Success(true) {
      var row := FindUserByName(users, username).value;
      var i :| 0 <= i < |users| && users[i] == row && p(users[i]) && forall j :: 0 <= j < i ==> !p(users[j]);
    }
    if exists i :: 0 <= i < |users| && users[i].name == username && users[i].password == password
                   && forall j :: 0 <= j < i ==> !EqualsIgnoreCase(users[j].name, username) {
      var i :| 0 <= i < |users| && users[i].name == username && users[i].password == password
               && forall j :: 0 <= j < i ==> !EqualsIgnoreCase(users[j].name, username);
      FindFirstAt(users, p, i);
    }
  }

  /** A user found by name whose stored name differs from the typed one,
      if only in case, is refused with InvalidCredentials. */
  lemma CaseMismatchRefused(users: seq<UserRow>, username: string, password: string, i: nat)
    requires i < |users| && EqualsIgnoreCase(users[i].name, username) && users[i].name != username
    requires forall j :: 0 <= j < i ==> !EqualsIgnoreCase(users[j].name, username)
    ensures Authentication(users, username, password) == Failure(InvalidCredentials)
  {
    FindFirstAt(users, (u: UserRow) => EqualsIgnoreCase(u.name, username), i);
  }

  /** Rows added after the first name match do not change the answer. */
  lemma FirstMatchDecides(users: seq<UserRow>, more: seq<UserRow>, username: string, password: string)
    requires exists i :: 0 <= i < |users| && EqualsIgnoreCase(users[i].name, username)
    ensures Authentication(users + more, username, password) == Authentication(users, username, password)
  {
    FindFirstAppend(users, more, (u: UserRow) => EqualsIgnoreCase(u.name, username));
  }

  class LoginService {
    const userService: UserService

    /** The service obtained through UserService.Instance(). */
    constructor (registry: UserServiceRegistry)
      modifies registry`instance
      ensures userService == registry.instance
      ensures old(registry.instance) != null ==> userService == old(registry.instance)
    {
      var s := registry.Instance();
      userService := s;
    }

    /** Authenticate: look the user up by name, then compare exactly. */
    method Authenticate(username: string, password: string) returns (r: Result<bool>)
      ensures r == Authentication(userService.db.users, username, password)
    {
      var user := userService.GetByName(username);
      if user == null {
        return Success(false);
      }
      if user.name != username || user.password != password {
        return Failure(InvalidCredentials);
      }
      return Success(true);
    }
  }
}
