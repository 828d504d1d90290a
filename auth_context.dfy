/**
 * The identity store: the registered users, the signed-in user, and the ordered
 * validation rules of sign-up.
 */
module AuthContext {
  import opened Common
  import opened Seqs
  import opened JsText

  /** A registered account, password included. */
  datatype StoredUser = StoredUser(id: string, username: string, password: string, role: Role)

  /** The signed-in user as the rest of the app sees it: no password. */
  datatype User = User(id: string, username: string, role: Role)

  datatype RegisterResult = RegisterResult(success: bool, error: Option<string>)

  /** The accounts written to an empty storage on first load. */
  const DefaultUsers: seq<StoredUser> := [
    StoredUser("1", "admin", "1111", Admin),
    StoredUser("2", "player1", "foundry", Player),
    StoredUser("3", "player2", "foundry", Player)
  ]

  const TakenError := "Это имя пользователя уже занято"
  const ShortNameError := "Имя пользователя должно содержать минимум 3 символа"
  const ShortPasswordError := "Пароль должен содержать минимум 4 символа"

  function Profile(u: StoredUser): (r: User)
  {
    User(u.id, u.username, u.role)
  }

  /** The login lookup: the account has exactly this name and this password. */
  function Credentials(username: string, password: string): StoredUser -> bool
  {
    (u: StoredUser) => u.username == username && u.password == password
  }

  function LowerName(u: StoredUser): string { ToLower(u.username) }

  /** The sign-up lookup: the account's name equals this one once both are lowercased. */
  function SameNameIgnoringCase(username: string): StoredUser -> bool
  {
    (u: StoredUser) => LowerName(u) == ToLower(username)
  }

  /** No two accounts whose names differ only in letter case. */
  ghost predicate NamesUniqueIgnoringCase(users: seq<StoredUser>)
  {
    DistinctBy(users, LowerName)
  }

  function UserId(u: StoredUser): string { u.id }

  /** No two accounts share an id. */
  ghost predicate IdsUnique(users: seq<StoredUser>)
  {
    DistinctBy(users, UserId)
  }

  /** The profile `login` signs in with: the first account with exactly these credentials. */
  function Authenticate(users: seq<StoredUser>, username: string, password: string): (r: Option<User>)
    ensures r.Some? <==> exists i :: 0 <= i < |users| && users[i].username == username && users[i].password == password
    ensures r.Some? ==> exists i :: 0 <= i < |users| && Credentials(username, password)(users[i]) && r.value == Profile(users[i])
    ensures r.Some? ==> r.value.username == username
  {
    match Find(users, Credentials(username, password))
    case None => None
    case Some(u) => Some(Profile(u))
  }

  /** Why `register` refuses, checked in order: a name taken up to letter case, then a name
      shorter than 3 UTF-16 code units, then a password shorter than 4; `None` when it accepts. */
  function RegisterError(users: seq<StoredUser>, username: string, password: string): (r: Option<string>)
    ensures r == Some(TakenError) <==> exists i :: 0 <= i < |users| && LowerName(users[i]) == ToLower(username)
    ensures r == Some(ShortNameError) <==>
      (forall i :: 0 <= i < |users| ==> LowerName(users[i]) != ToLower(username)) && Utf16Length(username) < 3
    ensures r == Some(ShortPasswordError) <==>
      (forall i :: 0 <= i < |users| ==> LowerName(users[i]) != ToLower(username))
      && Utf16Length(username) >= 3 && Utf16Length(password) < 4
    ensures r.None? <==>
      (forall i :: 0 <= i < |users| ==> LowerName(users[i]) != ToLower(username))
      && Utf16Length(username) >= 3 && Utf16Length(password) >= 4
  {
    if Find(users, SameNameIgnoringCase(username)).Some? then Some(TakenError)
    else if Utf16Length(username) < 3 then Some(ShortNameError)
    else if Utf16Length(password) < 4 then Some(ShortPasswordError)
    else None
  }

  /** The default accounts already satisfy both uniqueness rules. */
  lemma DefaultUsersUnique()
    ensures NamesUniqueIgnoringCase(DefaultUsers)
    ensures IdsUnique(DefaultUsers)
  {
    assert LowerName(DefaultUsers[0]) == "admin";
    assert LowerName(DefaultUsers[1]) == "player1";
    assert LowerName(DefaultUsers[2]) == "player2";
  }

  /** An accepted sign-up keeps the names unique up to letter case. */
  lemma RegisterKeepsNamesUnique(users: seq<StoredUser>, username: string, password: string, newId: string)
    requires NamesUniqueIgnoringCase(users) && RegisterError(users, username, password).None?
    ensures NamesUniqueIgnoringCase(users + [StoredUser(newId, username, password, Player)])
  {
    DistinctByAppend(users, StoredUser(newId, username, password, Player), LowerName);
  }

  /** A sign-up with a fresh id keeps the ids unique. */
  lemma RegisterKeepsIdsUnique(users: seq<StoredUser>, u: StoredUser)
    requires IdsUnique(users) && forall v :: v in users ==> v.id != u.id
    ensures IdsUnique(users + [u])
  {
    assert forall i :: 0 <= i < |users| ==> users[i] in users;
    DistinctByAppend(users, u, UserId);
  }

  /** Right after an accepted sign-up, the new credentials sign in as the new player. */
  lemma RegisterThenLogin(users: seq<StoredUser>, username: string, password: string, newId: string)
    requires RegisterError(users, username, password).None?
    ensures Authenticate(users + [StoredUser(newId, username, password, Player)], username, password)
            == Some(User(newId, username, Player))
  {
    var u := StoredUser(newId, username, password, Player);
    forall i | 0 <= i < |users| ensures !Credentials(username, password)(users[i]) {
      assert LowerName(users[i]) != ToLower(username);
    }
    FindConcat(users, [u], Credentials(username, password));
  }

  class AuthStore {
    var users: seq<StoredUser>
    var user: Option<User>

    ghost predicate Valid()
      reads this`users
    {
      NamesUniqueIgnoringCase(users) && IdsUnique(users)
    }

    /** The state after the first load from an empty storage: default accounts, nobody signed in. */
    constructor ()
      ensures Valid()
      ensures users == DefaultUsers && user == None
    {
      users := DefaultUsers;
      user := None;
      DefaultUsersUnique();
    }

    /** Signs in when some account has exactly these credentials; otherwise changes nothing. */
    method Login(username: string, password: string) returns (ok: bool)
      modifies this`user
      ensures ok <==> Authenticate(users, username, password).Some?
      ensures ok ==> user == Authenticate(users, username, password)
      ensures !ok ==> user == old(user)
    {
      var found := Authenticate(users, username, password);
      if found.Some? {
        user := found;
        return true;
      }
      return false;
    }

    /** Appends a new player account under the fresh id `newId` when the sign-up rules accept;
        never signs anybody in. */
    method Register(username: string, password: string, newId: string) returns (r: RegisterResult)
      requires Valid()
      requires forall u :: u in users ==> u.id != newId
      modifies this`users
      ensures Valid()
      ensures r.success <==> RegisterError(old(users), username, password).None?
      ensures r.error == RegisterError(old(users), username, password)
      ensures r.success ==> users == old(users) + [StoredUser(newId, username, password, Player)]
      ensures !r.success ==> users == old(users)
    {
      var err := RegisterError(users, username, password);
      if err.Some? {
        return RegisterResult(false, err);
      }
      RegisterKeepsNamesUnique(users, username, password, newId);
      RegisterKeepsIdsUnique(users, StoredUser(newId, username, password, Player));
      users := users + [StoredUser(newId, username, password, Player)];
      r := RegisterResult(true, None);
    }

    method Logout()
      modifies this`user
      ensures user == None
    {
      user := None;
    }

    function IsAuthenticated(): (b: bool)
      reads this`user
      ensures b <==> user.Some?
    {
      user.Some?
    }
  }
}
