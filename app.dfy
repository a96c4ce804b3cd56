/**
 * The server as a state machine over its database and one client's session.
 * Each handler changes the state step by step as the request handler does
 * (build the user object, set its password, add and commit it, set the
 * session), and each is proved to make exactly the transition that the
 * function of the same name in module Handlers describes.
 */
module App {
  import opened Wrappers
  import opened Credentials
  import opened Models
  import opened Database
  import Handlers
  import Invariants

  class Server {
    /** The hashing library the server was configured with. */
    const bc: Bcrypt
    /** The users table, in insertion order. */
    var users: seq<UserRow>
    /** The recipes table, in insertion order. */
    var recipes: seq<Recipe>
    /** The session's user_id entry; None when the key is absent. */
    var session: Option<nat>
    var nextUserId: nat
    var nextRecipeId: nat

    /** The state as the value the functions of module Handlers act on. */
    function Snapshot(): Store
      reads this
    {
      Store(users, recipes, session, nextUserId, nextRecipeId)
    }

    ghost predicate Valid()
      reads this
    {
      Database.Valid(Snapshot())
    }

    constructor (bc: Bcrypt)
      ensures Valid()
      ensures this.bc == bc && Snapshot() == EMPTY
    {
      this.bc := bc;
      users, recipes, session := [], [], None;
      nextUserId, nextRecipeId := 1, 1;
    }

    method Signup(body: Handlers.SignupRequest, salt: Salt) returns (resp: Handlers.Response)
      requires Valid()
      modifies this
      ensures Valid()
      ensures (Snapshot(), resp) == Handlers.Signup(old(Snapshot()), body, bc, salt)
    {
      Invariants.SignupPreservesValid(Snapshot(), body, bc, salt);
      if !Present(body.username) || !Present(body.password) {
        return Handlers.Response(Handlers.UNPROCESSABLE, Handlers.Error(Handlers.MISSING_CREDENTIALS));
      }
      var user := new User(nextUserId, body.username.value, body.bio, body.imageUrl);
      var setter := user.SetPassword(bc, body.password, salt);
      if setter.Failure? {
        // the library refused the password: ValueError, answered before anything is added
        return Handlers.Response(Handlers.UNPROCESSABLE, Handlers.Error(setter.error));
      }
      // the commit fails on the unique constraint and is rolled back
      if FindByUsername(users, user.username).Some? {
        return Handlers.Response(Handlers.UNPROCESSABLE, Handlers.Error(Handlers.DUPLICATE_USERNAME));
      }
      users := users + [user.Row()];
      nextUserId := nextUserId + 1;
      session := Some(user.id);
      resp := Handlers.Response(Handlers.CREATED, Handlers.UserBody(user.Row().Public()));
    }

    method Login(body: Handlers.LoginRequest) returns (resp: Handlers.Response)
      requires Valid()
      modifies this
      ensures Valid()
      ensures (Snapshot(), resp) == Handlers.Login(old(Snapshot()), body, bc)
    {
      Invariants.LoginPreservesValid(Snapshot(), body, bc);
      var found := if body.username.None? then None else FindByUsername(users, body.username.value);
      if found.None? {
        return Handlers.Response(Handlers.UNAUTHORIZED, Handlers.Error(Handlers.INVALID_CREDENTIALS));
      }
      var user := new User.Load(users[found.value]);
      if body.password.None? {
        // the hashing library raises on a missing password
        return Handlers.Response(Handlers.SERVER_ERROR, Handlers.Crash);
      }
      var checked := user.Authenticate(bc, body.password.value);
      if checked.Failure? {
        // the library refused the candidate
        return Handlers.Response(Handlers.SERVER_ERROR, Handlers.Crash);
      }
      if !checked.value {
        return Handlers.Response(Handlers.UNAUTHORIZED, Handlers.Error(Handlers.INVALID_CREDENTIALS));
      }
      session := Some(user.id);
      resp := Handlers.Response(Handlers.OK, Handlers.UserBody(user.Row().Public()));
    }

    method Logout() returns (resp: Handlers.Response)
      requires Valid()
      modifies this
      ensures Valid()
      ensures (Snapshot(), resp) == Handlers.Logout(old(Snapshot()))
    {
      Invariants.LogoutPreservesValid(Snapshot());
      if session.Some? {
        session := None;
        return Handlers.Response(Handlers.NO_CONTENT, Handlers.Empty);
      }
      resp := Handlers.Response(Handlers.UNAUTHORIZED, Handlers.Error(Handlers.NOT_LOGGED_IN));
    }

    method CreateRecipe(body: Handlers.RecipeRequest) returns (resp: Handlers.Response)
      requires Valid()
      modifies this
      ensures Valid()
      ensures (Snapshot(), resp) == Handlers.CreateRecipe(old(Snapshot()), body)
    {
      Invariants.CreateRecipePreservesValid(Snapshot(), body);
      var uid := SessionUser(session);
      if uid.None? {
        return Handlers.Response(Handlers.UNAUTHORIZED, Handlers.Error(Handlers.NOT_LOGGED_IN));
      }
      var minutes := Handlers.MinutesOrZero(body.minutes);
      if !Present(body.title) || !Present(body.instructions) {
        return Handlers.Response(Handlers.UNPROCESSABLE, Handlers.Error(Handlers.INVALID_RECIPE));
      }
      var made := NewRecipe(nextRecipeId, body.title.value, body.instructions.value, minutes, uid.value);
      if made.Failure? {
        // the validator raised before the insert; the rollback leaves the table as it was
        return Handlers.Response(Handlers.UNPROCESSABLE, Handlers.Error(Handlers.INVALID_RECIPE));
      }
      if !FitsColumn(made.value.minutes) {
        // the driver refuses the value at commit time; the error is not caught and nothing is stored
        return Handlers.Response(Handlers.SERVER_ERROR, Handlers.Crash);
      }
      recipes := recipes + [made.value];
      nextRecipeId := nextRecipeId + 1;
      // after the commit the response dereferences the recipe's owner
      var owner := FindById(users, uid.value);
      if owner.None? {
        return Handlers.Response(Handlers.SERVER_ERROR, Handlers.Crash);
      }
      resp := Handlers.Response(Handlers.CREATED, Handlers.RecipeBody(Handlers.View(made.value, users[owner.value].Public())));
    }
  }
}
