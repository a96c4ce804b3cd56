/**
 * The abstract store the handlers work on: the two tables, the session and
 * the id counters of the database, with the constraints the schema and the
 * handlers maintain, and the queries the handlers issue.
 */
module Database {
  import opened Wrappers
  import opened Models

  /**
   * A snapshot of the state: the users table, the recipes table (both in
   * insertion order), the session cookie's user_id entry, and the next id
   * the database will hand out for each table.
   */
  datatype Store = Store(users: seq<UserRow>, recipes: seq<Recipe>, session: Option<nat>, nextUserId: nat, nextRecipeId: nat)

  /** A fresh database and a client with no session. */
  const EMPTY: Store := Store([], [], None, 1, 1)

  /**
   * The range of an Integer column: SQLite stores 64-bit signed integers,
   * and its driver raises OverflowError on any value outside that range.
   */
  const COLUMN_INT_MIN: int := -0x8000_0000_0000_0000
  const COLUMN_INT_MAX: int := 0x7fff_ffff_ffff_ffff

  predicate FitsColumn(n: int)
  {
    COLUMN_INT_MIN <= n <= COLUMN_INT_MAX
  }

  /** Python truthiness of the session's user_id: absent and 0 are both falsy. */
  function SessionUser(session: Option<nat>): (r: Option<nat>)
    ensures r.Some? <==> session.Some? && session.value != 0
    ensures r.Some? ==> r == session
  {
    if session.Some? && session.value != 0 then session else None
  }

  /** The unique constraint on users.username. */
  predicate UniqueUsernames(users: seq<UserRow>)
  {
    forall i, j :: 0 <= i < j < |users| ==> users[i].username != users[j].username
  }

  /** User ids are positive, handed out in increasing order and below the counter. */
  predicate UserIdsOrdered(users: seq<UserRow>, next: nat)
  {
    (forall i :: 0 <= i < |users| ==> 1 <= users[i].id < next) &&
    (forall i, j :: 0 <= i < j < |users| ==> users[i].id < users[j].id)
  }

  /**
   * Every persisted recipe has a title, long enough instructions, minutes
   * within the column's range, and an id below the counter, in increasing
   * order.
   */
  predicate RecipesWellFormed(recipes: seq<Recipe>, next: nat)
  {
    (forall i :: 0 <= i < |recipes| ==>
       recipes[i].title != "" && |recipes[i].instructions| >= MIN_INSTRUCTIONS &&
       FitsColumn(recipes[i].minutes) && 1 <= recipes[i].id < next) &&
    (forall i, j :: 0 <= i < j < |recipes| ==> recipes[i].id < recipes[j].id)
  }

  /** The store invariant every handler preserves. */
  predicate Valid(st: Store)
  {
    UniqueUsernames(st.users) &&
    UserIdsOrdered(st.users, st.nextUserId) &&
    RecipesWellFormed(st.recipes, st.nextRecipeId) &&
    st.nextUserId >= 1 && st.nextRecipeId >= 1 &&
    (st.session.Some? ==> st.session.value >= 1)
  }

  /** The session names a user that is in the store. */
  predicate SessionResolves(st: Store)
  {
    st.session.Some? ==> FindById(st.users, st.session.value).Some?
  }

  /** User.query.get(id): the position of the row with that primary key, if any. */
  function FindById(users: seq<UserRow>, id: nat): (r: Option<nat>)
    ensures r.Some? ==> r.value < |users| && users[r.value].id == id
    ensures r.None? <==> forall i :: 0 <= i < |users| ==> users[i].id != id
  {
    if users == [] then None
    else if users[0].id == id then Some(0)
    else match FindById(users[1..], id)
      case None => None
      case Some(k) => Some(k + 1)
  }

  /** filter_by(username=...).first(): the position of the first row with that exact username, if any. */
  function FindByUsername(users: seq<UserRow>, username: string): (r: Option<nat>)
    ensures r.Some? ==> r.value < |users| && users[r.value].username == username
    ensures r.Some? ==> forall j :: 0 <= j < r.value ==> users[j].username != username
    ensures r.None? <==> forall i :: 0 <= i < |users| ==> users[i].username != username
  {
    if users == [] then None
    else if users[0].username == username then Some(0)
    else match FindByUsername(users[1..], username)
      case None => None
      case Some(k) => Some(k + 1)
  }

  /** filter_by(user_id=...).all(): the recipes of one user, in store order. */
  function OwnedBy(recipes: seq<Recipe>, userId: nat): (r: seq<Recipe>)
    ensures |r| <= |recipes|
    ensures forall k :: 0 <= k < |r| ==> r[k].userId == userId
  {
    if recipes == [] then []
    else if recipes[0].userId == userId then [recipes[0]] + OwnedBy(recipes[1..], userId)
    else OwnedBy(recipes[1..], userId)
  }
}
