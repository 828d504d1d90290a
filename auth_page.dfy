/**
 * The sign-in page: the two forms, their error and success state, and the guards that
 * decide whether the identity store is called at all.
 */
module AuthPage {
  import opened Common
  import opened AuthContext

  const FillAllFields := "Пожалуйста, заполните все поля"
  const WrongCredentials := "Неверное имя пользователя или пароль"
  const PasswordsDiffer := "Пароли не совпадают"
  const RegisterFailed := "Ошибка регистрации"

  /** The sign-up form's own refusal, checked before the store is called: an empty field,
      then a confirmation that differs from the password. */
  function RegisterFormError(username: string, password: string, confirm: string): (r: Option<string>)
    ensures r == Some(FillAllFields) <==> username == "" || password == "" || confirm == ""
    ensures r == Some(PasswordsDiffer) <==> username != "" && password != "" && confirm != "" && password != confirm
    ensures r.None? <==> username != "" && password != "" && password == confirm
  {
    if username == "" || password == "" || confirm == "" then Some(FillAllFields)
    else if password != confirm then Some(PasswordsDiffer)
    else None
  }

  /** `result.error || "Ошибка регистрации"`: the store's message, or the generic one when it is missing or empty. */
  function ShownError(r: RegisterResult): (msg: string)
    ensures msg != ""
    ensures r.error.Some? && r.error.value != "" ==> msg == r.error.value
  {
    if r.error.Some? && r.error.value != "" then r.error.value else RegisterFailed
  }

  /** Every refusal of the store reaches the page with its own message. */
  lemma ShownErrorOfStore(users: seq<StoredUser>, username: string, password: string)
    requires RegisterError(users, username, password).Some?
    ensures ShownError(RegisterResult(false, RegisterError(users, username, password)))
            == RegisterError(users, username, password).value
  {
  }

  class AuthForms {
    const auth: AuthStore
    var loginUsername: string
    var loginPassword: string
    var loginError: string
    var registerUsername: string
    var registerPassword: string
    var registerConfirmPassword: string
    var registerError: string
    var registerSuccess: bool

    constructor (auth: AuthStore)
      ensures this.auth == auth
      ensures loginUsername == "" && loginPassword == "" && loginError == ""
      ensures registerUsername == "" && registerPassword == "" && registerConfirmPassword == ""
      ensures registerError == "" && !registerSuccess
    {
      this.auth := auth;
      loginUsername := "";
      loginPassword := "";
      loginError := "";
      registerUsername := "";
      registerPassword := "";
      registerConfirmPassword := "";
      registerError := "";
      registerSuccess := false;
    }

    /** Clears the old error; an empty field is refused without asking the store; otherwise the
        error is set exactly when the store refuses the credentials. */
    method HandleLogin()
      modifies this`loginError, auth`user
      ensures loginUsername == "" || loginPassword == "" ==>
        loginError == FillAllFields && auth.user == old(auth.user)
      ensures loginUsername != "" && loginPassword != "" ==>
        && (loginError == WrongCredentials <==> Authenticate(auth.users, loginUsername, loginPassword).None?)
        && (loginError == "" <==> Authenticate(auth.users, loginUsername, loginPassword).Some?)
        && (Authenticate(auth.users, loginUsername, loginPassword).Some? ==>
              auth.user == Authenticate(auth.users, loginUsername, loginPassword))
        && (Authenticate(auth.users, loginUsername, loginPassword).None? ==> auth.user == old(auth.user))
    {
      loginError := "";
      if loginUsername == "" || loginPassword == "" {
        loginError := FillAllFields;
        return;
      }
      var success := auth.Login(loginUsername, loginPassword);
      if !success {
        loginError := WrongCredentials;
      }
    }

    /** Clears the old error and success flag; refuses an incomplete or mismatched form without
        asking the store; otherwise shows the store's verdict and, on success, empties the form. */
    method HandleRegister(newId: string)
      requires auth.Valid()
      requires forall u :: u in auth.users ==> u.id != newId
      modifies this`registerError, this`registerSuccess, this`registerUsername, this`registerPassword,
               this`registerConfirmPassword, auth`users
      ensures auth.Valid()
      ensures var form := RegisterFormError(old(registerUsername), old(registerPassword), old(registerConfirmPassword));
        form.Some? ==>
          && registerError == form.value && !registerSuccess && auth.users == old(auth.users)
          && registerUsername == old(registerUsername) && registerPassword == old(registerPassword)
          && registerConfirmPassword == old(registerConfirmPassword)
      ensures var form := RegisterFormError(old(registerUsername), old(registerPassword), old(registerConfirmPassword));
        var store := RegisterError(old(auth.users), old(registerUsername), old(registerPassword));
        form.None? && store.None? ==>
          && registerSuccess && registerError == ""
          && auth.users == old(auth.users) + [StoredUser(newId, old(registerUsername), old(registerPassword), Player)]
          && registerUsername == "" && registerPassword == "" && registerConfirmPassword == ""
      ensures var form := RegisterFormError(old(registerUsername), old(registerPassword), old(registerConfirmPassword));
        var store := RegisterError(old(auth.users), old(registerUsername), old(registerPassword));
        form.None? && store.Some? ==>
          && !registerSuccess && registerError == store.value && auth.users == old(auth.users)
          && registerUsername == old(registerUsername) && registerPassword == old(registerPassword)
          && registerConfirmPassword == old(registerConfirmPassword)
    {
      registerError := "";
      registerSuccess := false;
      if registerUsername == "" || registerPassword == "" || registerConfirmPassword == "" {
        registerError := FillAllFields;
        return;
      }
      if registerPassword != registerConfirmPassword {
        registerError := PasswordsDiffer;
        return;
      }
      var result := auth.Register(registerUsername, registerPassword, newId);
      if result.success {
        registerSuccess := true;
        registerUsername := "";
        registerPassword := "";
        registerConfirmPassword := "";
      } else {
        registerError := ShownError(result);
      }
    }
  }
}
