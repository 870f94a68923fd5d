/**
 The in-memory user registry behind the `/register` and `/login` handlers of
 the messenger's HTTP server. Accounts are plaintext `(username, password)`
 records kept in insertion order; registration appends, login looks up.
 */
module UserRegistry {
  import opened Wrappers

  /** One stored record `{ username, password }`. */
  datatype User = User(username: string, password: string)

  /** The JSON body a handler answers with: `success` and, on some failures, `message`. */
  datatype Reply = Reply(success: bool, message: Option<string>)

  /** Sent when a field of the registration request is missing or empty. */
  const FillAllFields: string := "Заполни все поля"

  /** Sent when the requested username is already stored. */
  const UserExists: string := "Пользователь уже существует"

  /**
   A request field as JavaScript's truthiness sees it: `None` is a field the
   request body does not carry (`undefined`); the only falsy string is "".
   */
  predicate Filled(field: Option<string>)
  {
    field.Some? && field.value != ""
  }

  /** Some stored record carries this username. */
  predicate NameTaken(users: seq<User>, name: string)
  {
    exists i | 0 <= i < |users| :: users[i].username == name
  }

  /**
   The registry invariant: no stored field is empty, and no two records share
   a username.
   */
  ghost predicate WellFormed(users: seq<User>)
  {
    && (forall i | 0 <= i < |users| :: users[i].username != "" && users[i].password != "")
    && (forall i, j | 0 <= i < j < |users| :: users[i].username != users[j].username)
  }

  /** Login's reference definition: both fields are present and some record matches both. */
  predicate Accepts(users: seq<User>, username: Option<string>, password: Option<string>)
  {
    username.Some? && password.Some? && User(username.value, password.value) in users
  }

  /**
   Login's search: the index of the first record with both this username and
   this password, if there is one.
   */
  function FindAccount(users: seq<User>, name: string, pass: string): (r: Option<nat>)
    ensures r.Some? ==> r.value < |users| && users[r.value] == User(name, pass)
    ensures r.Some? ==> forall j | 0 <= j < r.value :: users[j] != User(name, pass)
    ensures r.None? <==> User(name, pass) !in users
  {
    if |users| == 0 then None
    else if users[0].username == name && users[0].password == pass then Some(0)
    else
      match FindAccount(users[1..], name, pass)
      case None => None
      case Some(i) => Some(i + 1)
  }

  /** A registration request's two body fields. */
  datatype Request = Request(username: Option<string>, password: Option<string>)

  /** The registry after one registration request, and the reply to it. */
  datatype Step = Step(users: seq<User>, reply: Reply)

  /**
   One `/register` request against the stored records: a missing or empty
   field is rejected before the duplicate check; a taken username is
   rejected; otherwise the record is appended.
   */
  function RegisterStep(users: seq<User>, username: Option<string>, password: Option<string>): (s: Step)
    ensures !Filled(username) || !Filled(password) ==>
              s == Step(users, Reply(false, Some(FillAllFields)))
    ensures Filled(username) && Filled(password) && NameTaken(users, username.value) ==>
              s == Step(users, Reply(false, Some(UserExists)))
    ensures Filled(username) && Filled(password) && !NameTaken(users, username.value) ==>
              s == Step(users + [User(username.value, password.value)], Reply(true, None))
    ensures users <= s.users && |s.users| <= |users| + 1
    ensures s.reply.success ==> Filled(username) && Filled(password)
    ensures s.reply.success ==> s.users == users + [User(username.value, password.value)]
    ensures !s.reply.success ==> s.users == users && s.reply.message.Some?
    ensures s.reply.success ==> Accepts(s.users, username, password)
    ensures WellFormed(users) ==> WellFormed(s.users)
  {
    if !Filled(username) || !Filled(password) then
      Step(users, Reply(false, Some(FillAllFields)))
    else if NameTaken(users, username.value) then
      Step(users, Reply(false, Some(UserExists)))
    else
      var added := User(username.value, password.value);
      assert (users + [added])[|users|] == added;
      Step(users + [added], Reply(true, None))
  }

  /**
   The records after the server, started with `users = []`, has answered
   these registration requests in order.
   */
  function Replay(requests: seq<Request>): seq<User>
  {
    if |requests| == 0 then []
    else
      var last := requests[|requests| - 1];
      RegisterStep(Replay(requests[..|requests| - 1]), last.username, last.password).users
  }

  /** Every registry the server can reach is well-formed. */
  lemma {:induction false} ReplayWellFormed(requests: seq<Request>)
    ensures WellFormed(Replay(requests))
  {
    if |requests| > 0 {
      ReplayWellFormed(requests[..|requests| - 1]);
    }
  }

  /** Later registrations keep every earlier record, so a login that succeeded keeps succeeding. */
  lemma {:induction false} ReplayKeepsRecords(requests: seq<Request>, later: seq<Request>)
    ensures Replay(requests) <= Replay(requests + later)
    decreases |later|
  {
    if |later| == 0 {
      assert requests + later == requests;
    } else {
      var all, earlier := requests + later, later[..|later| - 1];
      assert all[..|all| - 1] == requests + earlier;
      ReplayKeepsRecords(requests, earlier);
      var last := all[|all| - 1];
      assert Replay(all) == RegisterStep(Replay(requests + earlier), last.username, last.password).users;
    }
  }

  /** A login accepted at some point of the server's life is accepted at every later point. */
  lemma {:induction false} LoginsPersist(requests: seq<Request>, later: seq<Request>, username: Option<string>, password: Option<string>)
    requires Accepts(Replay(requests), username, password)
    ensures Accepts(Replay(requests + later), username, password)
  {
    ReplayKeepsRecords(requests, later);
    var users, users' := Replay(requests), Replay(requests + later);
    var i :| 0 <= i < |users| && users[i] == User(username.value, password.value);
    assert users'[i] == users[i];
  }

  /** On a well-formed registry, a stored username logs in with its own password only. */
  lemma WrongPasswordRejected(users: seq<User>, name: string, pass: string, other: string)
    requires WellFormed(users)
    requires User(name, pass) in users
    requires other != pass
    ensures !Accepts(users, Some(name), Some(other))
  {
  }

  /** On a well-formed registry, an empty username never logs in. */
  lemma EmptyUsernameRejected(users: seq<User>, password: Option<string>)
    requires WellFormed(users)
    ensures !Accepts(users, Some(""), password)
  {
  }

  /** The process-wide `users` array and the two handlers that use it. */
  class UserStore {
    var users: seq<User>

    ghost predicate Valid()
      reads this
    {
      WellFormed(users)
    }

    /** The store starts with no records. */
    constructor ()
      ensures Valid() && users == []
    {
      users := [];
    }

    /**
     Registration's duplicate search: the index of the first record with this
     username, if there is one.
     */
    method FindByName(name: string) returns (r: Option<nat>)
      ensures r.Some? ==> r.value < |users| && users[r.value].username == name
      ensures r.Some? ==> forall j | 0 <= j < r.value :: users[j].username != name
      ensures r.None? <==> !NameTaken(users, name)
    {
      var i := 0;
      while i < |users|
        invariant 0 <= i <= |users|
        invariant forall j | 0 <= j < i :: users[j].username != name
      {
        if users[i].username == name {
          return Some(i);
        }
        i := i + 1;
      }
      return None;
    }

    /**
     The `/register` handler: reject a missing or empty field first, then a
     username already stored; otherwise append the new record.
     */
    method Register(username: Option<string>, password: Option<string>) returns (reply: Reply)
      modifies this
      ensures !Filled(username) || !Filled(password) ==>
                reply == Reply(false, Some(FillAllFields)) && users == old(users)
      ensures Filled(username) && Filled(password) && NameTaken(old(users), username.value) ==>
                reply == Reply(false, Some(UserExists)) && users == old(users)
      ensures Filled(username) && Filled(password) && !NameTaken(old(users), username.value) ==>
                reply == Reply(true, None) && users == old(users) + [User(username.value, password.value)]
      ensures Step(users, reply) == RegisterStep(old(users), username, password)
      ensures old(Valid()) ==> Valid()
      ensures reply.success ==> Login(username, password)
    {
      if !Filled(username) || !Filled(password) {
        return Reply(false, Some(FillAllFields));
      }
      var found := FindByName(username.value);
      if found.Some? {
        return Reply(false, Some(UserExists));
      }
      users := users + [User(username.value, password.value)];
      reply := Reply(true, None);
    }

    /**
     The `/login` handler: success exactly when some stored record has both
     this username and this password. It only reads the registry.
     */
    function Login(username: Option<string>, password: Option<string>): (ok: bool)
      reads this
      ensures ok <==> Accepts(users, username, password)
    {
      username.Some? && password.Some? && FindAccount(users, username.value, password.value).Some?
    }
  }
}
