/**
 The user service: registration and login over an abstract account store.
 Password comparison (`bcrypt.compare`) and token signing (`jwt.sign`) are
 parameters, and every call made to them is recorded.
 */
module Users {
  import opened Wrappers
  import opened Errors

  datatype Account = Account(id: string, username: string, password: string)

  /** The account store, looked up by username. */
  type Accounts = map<string, Account>

  /** The claims a login token is signed over. */
  datatype Claims = Claims(id: string)

  const TokenLifetime: string := "8h"

  /** A call into the password or token collaborators. */
  datatype Call = Compare(password: string, stored: string) | Sign(claims: Claims, expiresIn: string)

  /** One login: its outcome and the collaborator calls it made, in order. */
  datatype LoginRun = LoginRun(outcome: Result<string, ServiceError>, calls: seq<Call>)

  /** `registerUser`: a taken username is 409 and stores nothing; otherwise
      exactly `{username, password}` is created under the identifier the store
      assigns, and the created account is returned. */
  function Register(users: Accounts, username: string, password: string, freshId: string)
    : (r: Result<(Accounts, Account), ServiceError>)
    ensures username in users <==> r == Failure(ServiceError(409, UsernameTaken))
    ensures username !in users ==> r.Success?
    ensures r.Success? ==>
      && r.value.1 == Account(freshId, username, password)
      && r.value.0.Keys == users.Keys + {username}
      && r.value.0[username] == r.value.1
      && (forall u :: u in users ==> r.value.0[u] == users[u])
  {
    if username in users then Failure(ServiceError(409, UsernameTaken))
    else
      var account := Account(freshId, username, password);
      Success((users[username := account], account))
  }

  /** `loginUser`: an unknown user fails before any comparison; a wrong
      password fails before any signing; both with the same 401. Success
      returns the token signed over the account's id for eight hours. */
  function Login(users: Accounts, username: string, password: string,
                 compare: (string, string) -> bool, sign: (Claims, string) -> string): (run: LoginRun)
    ensures username !in users ==>
              run == LoginRun(Failure(ServiceError(401, InvalidCredentials)), [])
    ensures username in users ==>
              |run.calls| >= 1 && run.calls[0] == Compare(password, users[username].password)
    ensures username in users && !compare(password, users[username].password) ==>
              run.calls == [Compare(password, users[username].password)]
    ensures run.outcome.Failure? ==>
              run.outcome.error == ServiceError(401, InvalidCredentials)
              && forall c :: c in run.calls ==> !c.Sign?
    ensures run.outcome.Success? <==>
              username in users && compare(password, users[username].password)
    ensures run.outcome.Success? ==>
              var claims := Claims(users[username].id);
              && run.calls == [Compare(password, users[username].password), Sign(claims, TokenLifetime)]
              && run.outcome.value == sign(claims, TokenLifetime)
  {
    if username !in users then LoginRun(Failure(ServiceError(401, InvalidCredentials)), [])
    else
      var user := users[username];
      var checked := [Compare(password, user.password)];
      if !compare(password, user.password) then
        LoginRun(Failure(ServiceError(401, InvalidCredentials)), checked)
      else
        var claims := Claims(user.id);
        LoginRun(Success(sign(claims, TokenLifetime)), checked + [Sign(claims, TokenLifetime)])
  }

  /** An unknown user and a wrong password are indistinguishable to the
      caller. */
  lemma {:induction false} FailuresAreIndistinguishable(
    users: Accounts, unknown: string, known: string, p1: string, p2: string,
    compare: (string, string) -> bool, sign: (Claims, string) -> string)
    requires unknown !in users
    requires known in users && !compare(p2, users[known].password)
    ensures Login(users, unknown, p1, compare, sign).outcome == Login(users, known, p2, compare, sign).outcome
  {
  }
}
