/**
 * The two persisted entities: User and Recipe.
 *
 * A User is an object whose password hash is assigned in place by a
 * write-only setter; the rest of its columns are fixed when it is built.
 * A Recipe is never changed after it is built, so it is a value, and its
 * construction runs the instructions validator.
 */
module Models {
  import opened Wrappers
  import opened Credentials

  const MIN_INSTRUCTIONS := 50
  const EMPTY_PASSWORD := "Password cannot be empty."
  const UNREADABLE_HASH := "password_hash is not a readable attribute"
  const SHORT_INSTRUCTIONS := "Instructions must be at least 50 characters long"

  /** Python truthiness of an optional string field: absent and "" are both falsy. */
  predicate Present(s: Option<string>)
  {
    s.Some? && s.value != ""
  }

  /** The public face of a user, the only user fields a response ever carries. */
  datatype PublicUser = PublicUser(id: nat, username: string, bio: Option<string>, imageUrl: Option<string>)

  /** A persisted row of the users table. */
  datatype UserRow = UserRow(id: nat, username: string, passwordHash: string, bio: Option<string>, imageUrl: Option<string>)
  {
    function Public(): PublicUser
    {
      PublicUser(id, username, bio, imageUrl)
    }
  }

  /**
   * What the password setter stores for a candidate password: it refuses an
   * absent or empty password itself, and otherwise stores the library's hash
   * or passes on the library's refusal.
   */
  function HashPassword(bc: Bcrypt, password: Option<string>, salt: Salt): (r: Result<string>)
    ensures r.Success? <==> Present(password) && bc.hash(password.value, salt).Success?
    ensures !Present(password) ==> r == Failure(EMPTY_PASSWORD)
    ensures Present(password) ==> r == bc.hash(password.value, salt)
  {
    if !Present(password) then Failure(EMPTY_PASSWORD)
    else bc.hash(password.value, salt)
  }

  class User {
    const id: nat
    const username: string
    const bio: Option<string>
    const imageUrl: Option<string>
    /** The stored hash; absent until the setter first succeeds. */
    var passwordHash: Option<string>

    constructor (id: nat, username: string, bio: Option<string>, imageUrl: Option<string>)
      ensures this.id == id && this.username == username
      ensures this.bio == bio && this.imageUrl == imageUrl
      ensures passwordHash == None
    {
      this.id := id;
      this.username := username;
      this.bio := bio;
      this.imageUrl := imageUrl;
      passwordHash := None;
    }

    /** The object the ORM materialises from a stored row. */
    constructor Load(row: UserRow)
      ensures passwordHash == Some(row.passwordHash) && Row() == row
    {
      id, username, bio, imageUrl := row.id, row.username, row.bio, row.imageUrl;
      passwordHash := Some(row.passwordHash);
    }

    /**
     * The write-only password setter. An absent or empty password raises, and
     * so does a password the library refuses; either way the stored hash is
     * left as it was. Otherwise the hash of the password replaces it. The
     * other columns are constants, so nothing else changes.
     */
    method SetPassword(bc: Bcrypt, password: Option<string>, salt: Salt) returns (r: Result<()>)
      modifies this
      ensures r.Success? <==> Present(password) && bc.hash(password.value, salt).Success?
      ensures !Present(password) ==> r == Failure(EMPTY_PASSWORD)
      ensures Present(password) && r.Failure? ==> r.error == bc.hash(password.value, salt).error
      ensures r.Failure? ==> passwordHash == old(passwordHash)
      ensures r.Success? ==> passwordHash == Some(bc.hash(password.value, salt).value)
    {
      var hashed := HashPassword(bc, password, salt);
      if hashed.Failure? {
        return Failure(hashed.error);
      }
      passwordHash := Some(hashed.value);
      r := Success(());
    }

    /** Reading the password hash through the public attribute always raises. */
    function ReadPasswordHash(): (r: Result<string>)
      ensures r.Failure? && r.error == UNREADABLE_HASH
    {
      Failure(UNREADABLE_HASH)
    }

    /** Whether the library accepts the candidate against the stored hash (or the library's refusal). */
    function VerifyPassword(bc: Bcrypt, password: string): (r: Result<bool>)
      reads this
      requires passwordHash.Some?
      ensures r == bc.check(passwordHash.value, password)
    {
      bc.check(passwordHash.value, password)
    }

    /** authenticate is verify_password under another name. */
    function Authenticate(bc: Bcrypt, password: string): (r: Result<bool>)
      reads this
      requires passwordHash.Some?
      ensures r == VerifyPassword(bc, password)
    {
      VerifyPassword(bc, password)
    }

    /** The row this object is persisted as; the column for the hash is non-null. */
    function Row(): (row: UserRow)
      reads this
      requires passwordHash.Some?
      ensures row.id == id && row.username == username && row.passwordHash == passwordHash.value
      ensures row.Public() == PublicUser(id, username, bio, imageUrl)
    {
      UserRow(id, username, passwordHash.value, bio, imageUrl)
    }
  }

  /** A persisted row of the recipes table; every column is non-null. */
  datatype Recipe = Recipe(id: nat, title: string, instructions: string, minutes: int, userId: nat)

  /** The instructions validator: shorter than 50 characters raises, anything else is kept as given. */
  function ValidateInstructions(instructions: string): (r: Result<string>)
    ensures r.Success? <==> |instructions| >= MIN_INSTRUCTIONS
    ensures r.Success? ==> r.value == instructions
    ensures r.Failure? ==> r.error == SHORT_INSTRUCTIONS
  {
    if |instructions| < MIN_INSTRUCTIONS then Failure(SHORT_INSTRUCTIONS)
    else Success(instructions)
  }

  /** Building a Recipe, which runs the instructions validator on the way. */
  function NewRecipe(id: nat, title: string, instructions: string, minutes: int, userId: nat): (r: Result<Recipe>)
    ensures r.Success? <==> |instructions| >= MIN_INSTRUCTIONS
    ensures r.Success? ==> r.value == Recipe(id, title, instructions, minutes, userId)
  {
    match ValidateInstructions(instructions)
    case Failure(e) => Failure(e)
    case Success(checked) => Success(Recipe(id, title, checked, minutes, userId))
  }
}
