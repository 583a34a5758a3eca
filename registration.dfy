/** The register route: a shared, append-only list of users guarded by a "username
    already taken" check. */
module Registration {
  import opened JsValues
  import opened Http

  /** What `users.push({ username, password })` stores: the two body fields as given. */
  datatype User = User(username: JsValue, password: JsValue)

  const MissingCredentials := "Username and password are required."
  const UsernameExists := "Username already exists."
  const Registered := "User registered successfully!"

  /** Some user in `users` has exactly this username. */
  predicate Taken(users: seq<User>, name: JsValue) {
    exists i | 0 <= i < |users| :: users[i].username == name
  }

  /** No two users share a username. */
  ghost predicate UniqueUsernames(users: seq<User>) {
    forall i, j | 0 <= i < j < |users| :: users[i].username != users[j].username
  }

  /** Appending a user whose name is not yet taken keeps usernames unique. */
  lemma AppendKeepsUnique(users: seq<User>, u: User)
    requires UniqueUsernames(users)
    requires !Taken(users, u.username)
    ensures UniqueUsernames(users + [u])
    ensures Taken(users + [u], u.username)
  {
    assert (users + [u])[|users|] == u;
  }

  /** The `users` array that the router shares with the authentication routes. */
  class UserRegistry {
    var users: seq<User>

    constructor (initial: seq<User>)
      ensures users == initial
    {
      users := initial;
    }

    /** `POST /register`. `isValid` is the check the router imports from the
        authentication module and uses as "this username is already taken". */
    method Register(username: JsValue, password: JsValue, isValid: JsValue -> bool)
      returns (res: Response<string>)
      modifies this
      ensures !Truthy(username) || !Truthy(password) ==>
        res == Status(400, MissingCredentials) && users == old(users)
      ensures Truthy(username) && Truthy(password) && isValid(username) ==>
        res == Status(409, UsernameExists) && users == old(users)
      ensures Truthy(username) && Truthy(password) && !isValid(username) ==>
        res == Ok(Registered) && users == old(users) + [User(username, password)]
      ensures res.Ok? <==> users != old(users)
      ensures UniqueUsernames(old(users)) && (Taken(old(users), username) ==> isValid(username)) ==>
        UniqueUsernames(users)
    {
      if !Truthy(username) || !Truthy(password) {
        return Status(400, MissingCredentials);
      }
      if isValid(username) {
        return Status(409, UsernameExists);
      }
      if UniqueUsernames(users) && !Taken(users, username) {
        AppendKeepsUnique(users, User(username, password));
      }
      users := users + [User(username, password)];
      res := Ok(Registered);
    }
  }

  /** With the check taken to be membership in the registry, registering a fresh name
      succeeds once and then conflicts, whatever the second password is. */
  method RegisterTwice(registry: UserRegistry, name: JsValue, first: JsValue, second: JsValue)
    returns (r1: Response<string>, r2: Response<string>)
    requires Truthy(name) && Truthy(first) && Truthy(second)
    requires !Taken(registry.users, name)
    modifies registry
    ensures r1 == Ok(Registered) && r2 == Status(409, UsernameExists)
    ensures registry.users == old(registry.users) + [User(name, first)]
    ensures UniqueUsernames(old(registry.users)) ==> UniqueUsernames(registry.users)
  {
    var before := registry.users;
    r1 := registry.Register(name, first, n => Taken(before, n));
    var after := registry.users;
    assert after[|before|].username == name;
    r2 := registry.Register(name, second, n => Taken(after, n));
  }
}
